/** The job-shop encoding: one variable per job, in job order, whose domain is every
    machine; no constraint; a comparator that prefers the schedule with the smaller
    makespan (the largest total duration any machine receives); and a decoder that lists
    each job's machine. */
module JobShop {
  import opened Wrappers
  import opened Assignment

  /** A (partial) schedule: job index to machine index. */
  type Schedule = map<int, int>

  datatype JobShopError =
    | NoMachines  // `max` of the empty load list
    | NoSolution  // the decoder reads the items of a missing solution

  /** `range(k)`, which is empty for k <= 0. */
  function Range(k: int): (r: seq<int>)
    ensures |r| == if k <= 0 then 0 else k
    ensures forall i :: 0 <= i < |r| ==> r[i] == i
    ensures forall v :: v in r <==> 0 <= v < k
    decreases k
  {
    if k <= 0 then [] else Range(k - 1) + [k - 1]
  }

  /** The domains dictionary: jobs 0 .. n - 1 in order, each with every machine. */
  function JobShopTable(m: int, n: nat): Table<int, int>
  {
    Table(Range(n), map j | j in Range(n) :: Range(m))
  }

  /** Jobs are the variables, each once and in order, and every job may go to any machine. */
  lemma JobShopTableSpec(m: int, n: nat)
    ensures WellFormed(JobShopTable(m, n))
    ensures forall j :: j in JobShopTable(m, n).domains <==> 0 <= j < n
    ensures forall j, k :: j in JobShopTable(m, n).domains ==> (k in JobShopTable(m, n).domains[j] <==> 0 <= k < m)
  {
    var t := JobShopTable(m, n);
    assert forall j :: j in t.vars <==> 0 <= j < n;
  }

  /** The job-shop constraint accepts every partial schedule. */
  const AcceptAll: Schedule -> bool := _ => true

  /** With no constraint, a schedule that leaves job j as the first unassigned one has
      exactly one child per machine, in machine order. */
  lemma OneChildPerMachine(m: int, n: nat, a: Schedule)
    requires FirstUnassigned(JobShopTable(m, n).vars, a) < n
    ensures var j := FirstUnassigned(JobShopTable(m, n).vars, a);
            var kids := Succ(JobShopTable(m, n), AcceptAll, a);
            |kids| == |Range(m)| && forall k :: 0 <= k < |kids| ==> kids[k] == a[j := k]
  {
    var t := JobShopTable(m, n);
    var j := FirstUnassigned(t.vars, a);
    assert t.vars[j] == j;
    ExtendAcceptingAll(a, j, Range(m), AcceptAll);
  }

  /** Jobs are indices of `d` and machines are below m: what indexing `d` and the load
      list needs, and what every node of the search satisfies. */
  predicate ValidSchedule(m: int, d: seq<int>, a: Schedule)
  {
    forall j :: j in a ==> 0 <= j < |d| && 0 <= a[j] < m
  }

  lemma FitsIsValid(m: int, d: seq<int>, a: Schedule)
    requires Fits(JobShopTable(m, |d|), a)
    ensures ValidSchedule(m, d, a)
  {
    JobShopTableSpec(m, |d|);
  }

  /** The summed durations of the jobs among 0 .. n - 1 that the schedule puts on machine k. */
  function Load(d: seq<int>, a: Schedule, k: int, n: nat): int
    requires n <= |d|
  {
    if n == 0 then 0
    else Load(d, a, k, n - 1) + (if n - 1 in a && a[n - 1] == k then d[n - 1] else 0)
  }

  /** The largest element. */
  function Max(s: seq<int>): (x: int)
    requires s != []
    ensures forall i :: 0 <= i < |s| ==> s[i] <= x
    ensures x in s
  {
    if |s| == 1 then s[0]
    else
      var rest := Max(s[..|s| - 1]);
      assert forall i :: 0 <= i < |s| - 1 ==> s[..|s| - 1][i] == s[i];
      if s[|s| - 1] > rest then s[|s| - 1] else rest
  }

  /** The load of every machine, in machine order. */
  function Loads(m: int, d: seq<int>, a: Schedule): seq<int>
  {
    if m <= 0 then [] else seq(m, k => Load(d, a, k, |d|))
  }

  /** The makespan: the largest machine load, an error without machines. */
  function MakespanOf(m: int, d: seq<int>, a: Schedule): Result<int, JobShopError>
  {
    if m <= 0 then Err(NoMachines) else Ok(Max(Loads(m, d, a)))
  }

  /** The makespan is a machine's load that no other machine's load exceeds. */
  lemma MakespanIsLargestLoad(m: int, d: seq<int>, a: Schedule)
    requires m > 0
    ensures MakespanOf(m, d, a).Ok?
    ensures forall k :: 0 <= k < m ==> Load(d, a, k, |d|) <= MakespanOf(m, d, a).value
    ensures exists k :: 0 <= k < m && Load(d, a, k, |d|) == MakespanOf(m, d, a).value
  {
    var loads := Loads(m, d, a);
    forall k | 0 <= k < m
      ensures Load(d, a, k, |d|) <= Max(loads)
    {
      assert loads[k] == Load(d, a, k, |d|);
    }
    var k :| 0 <= k < |loads| && loads[k] == Max(loads);
    assert loads[k] == Load(d, a, k, |d|);
  }

  /** `time`: sums each scheduled job's duration into its machine's slot of a load array,
      then takes the largest slot. */
  method Makespan(m: int, d: seq<int>, a: Schedule) returns (r: Result<int, JobShopError>)
    requires ValidSchedule(m, d, a)
    ensures r == MakespanOf(m, d, a)
  {
    if m <= 0 {
      return Err(NoMachines);
    }
    var total := new int[m](_ => 0);
    for job := 0 to |d|
      invariant forall k :: 0 <= k < m ==> total[k] == Load(d, a, k, job)
    {
      if job in a {
        var machine := a[job];
        total[machine] := total[machine] + d[job];
      }
    }
    assert total[..] == Loads(m, d, a);
    var best := total[0];
    for k := 1 to m
      invariant best == Max(total[..k])
    {
      assert total[..k + 1][..k] == total[..k];
      if total[k] > best {
        best := total[k];
      }
    }
    assert total[..m] == total[..];
    return Ok(best);
  }

  /** `better`: a strictly smaller makespan. */
  function Better(m: int, d: seq<int>, a: Schedule, b: Schedule): Result<bool, JobShopError>
  {
    match MakespanOf(m, d, a)
    case Err(e) => Err(e)
    case Ok(x) =>
      match MakespanOf(m, d, b)
      case Err(e) => Err(e)
      case Ok(y) => Ok(x < y)
  }

  /** The comparator is a strict order: irreflexive, asymmetric and transitive. */
  lemma BetterIsStrictOrder(m: int, d: seq<int>, a: Schedule, b: Schedule, c: Schedule)
    ensures Better(m, d, a, a) != Ok(true)
    ensures Better(m, d, a, b) == Ok(true) ==> Better(m, d, b, a) == Ok(false)
    ensures Better(m, d, a, b) == Ok(true) && Better(m, d, b, c) == Ok(true) ==> Better(m, d, a, c) == Ok(true)
    ensures Better(m, d, a, b).Err? <==> m <= 0
  {
  }

  /** The decoder: one entry per job holding its machine (0 for a job the schedule leaves
      out); a missing solution is an error. */
  method Decode(d: seq<int>, final: Option<Schedule>) returns (r: Result<seq<int>, JobShopError>)
    requires final.Some? ==> forall j :: j in final.value ==> 0 <= j < |d|
    ensures r.Ok? <==> final.Some?
    ensures final.Some? ==>
              |r.value| == |d| && forall j :: 0 <= j < |d| ==> r.value[j] == (if j in final.value then final.value[j] else 0)
  {
    if final.None? {
      return Err(NoSolution);
    }
    var a := final.value;
    var result := new int[|d|](_ => 0);
    for job := 0 to |d|
      invariant forall j :: 0 <= j < |d| ==> result[j] == (if j < job && j in a then a[j] else 0)
    {
      if job in a {
        result[job] := a[job];
      }
    }
    return Ok(result[..]);
  }

  /** Decoding a goal of the search loses nothing: every entry is a machine, and reading
      the list back as job-to-machine pairs gives the schedule itself. */
  lemma DecodedGoalRoundTrip(m: int, d: seq<int>, a: Schedule, list: seq<int>)
    requires Fits(JobShopTable(m, |d|), a) && IsGoal(JobShopTable(m, |d|), a)
    requires |list| == |d| && forall j :: 0 <= j < |d| ==> list[j] == (if j in a then a[j] else 0)
    ensures forall j :: 0 <= j < |d| ==> 0 <= list[j] < m
    ensures (map j | 0 <= j < |d| :: list[j]) == a
  {
    GoalJobs(m, d, a);
    var back := map j | 0 <= j < |d| :: list[j];
    assert back.Keys == a.Keys;
  }

  /** A goal assigns every job, and only jobs, each to a machine. */
  lemma GoalJobs(m: int, d: seq<int>, a: Schedule)
    requires Fits(JobShopTable(m, |d|), a) && IsGoal(JobShopTable(m, |d|), a)
    ensures forall j :: j in a <==> 0 <= j < |d|
    ensures forall j :: j in a ==> 0 <= a[j] < m
  {
    var t := JobShopTable(m, |d|);
    JobShopTableSpec(m, |d|);
    GoalAssignsAll(t, a);
  }

  /** Two machines and two jobs of duration 3: splitting them gives makespan 3, stacking
      them gives 6, so the split schedule is better. */
  lemma TwoMachinesScenario()
    ensures MakespanOf(2, [3, 3], map[0 := 0, 1 := 1]) == Ok(3)
    ensures MakespanOf(2, [3, 3], map[0 := 0, 1 := 0]) == Ok(6)
    ensures Better(2, [3, 3], map[0 := 0, 1 := 1], map[0 := 0, 1 := 0]) == Ok(true)
  {
    var d := [3, 3];
    var split, stacked := map[0 := 0, 1 := 1], map[0 := 0, 1 := 0];
    assert Loads(2, d, split) == [3, 3];
    assert Loads(2, d, stacked) == [6, 0];
  }
}
