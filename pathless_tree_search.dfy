/** The stepwise pathless tree search: a frontier of unexpanded nodes and an incumbent
    goal node, advanced one expansion at a time. */
module TreeSearch {
  import opened Wrappers

  /** Exploration order. The search compares its order name with "bfs" only, so every
      other name selects the second discipline. */
  datatype Order = Bfs | Dfs

  function OrderOf(name: string): (o: Order)
    ensures o == Bfs <==> name == "bfs"
  {
    if name == "bfs" then Bfs else Dfs
  }

  /** The callbacks a search is parameterised by: successor expansion, goal test, the
      optional strict "first argument is better" comparator, and the order. */
  datatype Problem<!T> = Problem(succ: T -> seq<T>, goal: T -> bool, better: Option<(T, T) -> bool>, order: Order)

  /** The frontier and incumbent after a step, with the value the step returns. */
  datatype StepResult<T> = StepResult(frontier: seq<T>, best: Option<T>, improved: bool)

  function Reverse<T>(s: seq<T>): (r: seq<T>)
    ensures |r| == |s|
  {
    if s == [] then [] else Reverse(s[1..]) + [s[0]]
  }

  /** Queues one non-goal child: appended at the back for "bfs", inserted at index 0 otherwise. */
  function Push<T>(frontier: seq<T>, child: T, order: Order): seq<T>
  {
    if order == Bfs then frontier + [child] else [child] + frontier
  }

  /** The node a step removes: the front for "bfs", the back otherwise. */
  function Next<T>(frontier: seq<T>, order: Order): T
    requires frontier != []
  {
    if order == Bfs then frontier[0] else frontier[|frontier| - 1]
  }

  /** The frontier once `Next` has been removed. */
  function Rest<T>(frontier: seq<T>, order: Order): seq<T>
    requires frontier != []
  {
    if order == Bfs then frontier[1..] else frontier[..|frontier| - 1]
  }

  /** The loop over the children of the expanded node, including its early returns. */
  function Expand<T>(p: Problem<T>, kids: seq<T>, frontier: seq<T>, best: Option<T>): StepResult<T>
    decreases |kids|
  {
    if kids == [] then StepResult(frontier, best, false)
    else if p.goal(kids[0]) then
      if p.better.None? then StepResult([], Some(kids[0]), false)
      else if best.None? || p.better.value(kids[0], best.value) then StepResult(frontier, Some(kids[0]), true)
      else Expand(p, kids[1..], frontier, best)
    else Expand(p, kids[1..], Push(frontier, kids[0], p.order), best)
  }

  /** One call of `step` on a frontier and incumbent. */
  function StepOf<T>(p: Problem<T>, frontier: seq<T>, best: Option<T>): StepResult<T>
  {
    if frontier == [] then StepResult(frontier, best, false)
    else Expand(p, p.succ(Next(frontier, p.order)), Rest(frontier, p.order), best)
  }

  /** `n` consecutive steps. */
  function Run<T>(p: Problem<T>, s: StepResult<T>, n: nat): StepResult<T>
    decreases n
  {
    if n == 0 then s else Run(p, StepOf(p, s.frontier, s.best), n - 1)
  }

  // Reference definitions the expansion loop is characterised by.

  /** A child at which the loop returns: a goal, when there is no comparator, no
      incumbent yet, or the comparator prefers it to the incumbent. */
  predicate Stops<T>(p: Problem<T>, child: T, best: Option<T>)
  {
    p.goal(child) && (p.better.None? || best.None? || p.better.value(child, best.value))
  }

  /** Position of the first child at which the loop returns, or the number of children. */
  function StopIndex<T>(p: Problem<T>, kids: seq<T>, best: Option<T>): (k: nat)
    ensures k <= |kids|
    ensures k < |kids| ==> Stops(p, kids[k], best)
    ensures forall j :: 0 <= j < k ==> !Stops(p, kids[j], best)
  {
    if kids == [] then 0
    else if Stops(p, kids[0], best) then 0
    else 1 + StopIndex(p, kids[1..], best)
  }

  /** The children that are not goals, in order. */
  function NonGoals<T>(p: Problem<T>, kids: seq<T>): (r: seq<T>)
    ensures |r| <= |kids|
    ensures forall i :: 0 <= i < |r| ==> r[i] in kids && !p.goal(r[i])
    ensures forall i :: 0 <= i < |kids| && !p.goal(kids[i]) ==> kids[i] in r
  {
    if kids == [] then []
    else (if p.goal(kids[0]) then [] else [kids[0]]) + NonGoals(p, kids[1..])
  }

  /** The frontier after queueing `xs` one by one: appended as a block for "bfs", and for
      the other order each inserted at index 0, which reverses them. */
  function PushAll<T>(frontier: seq<T>, xs: seq<T>, order: Order): seq<T>
  {
    if order == Bfs then frontier + xs else Reverse(xs) + frontier
  }

  lemma ReverseCons<T>(x: T, s: seq<T>)
    ensures Reverse([x] + s) == Reverse(s) + [x]
  {
    assert ([x] + s)[1..] == s;
  }

  lemma {:induction false} ReverseSnoc<T>(s: seq<T>, x: T)
    ensures Reverse(s + [x]) == [x] + Reverse(s)
    decreases |s|
  {
    if s == [] {
      assert [x][1..] == [];
    } else {
      assert (s + [x])[1..] == s[1..] + [x];
      ReverseSnoc(s[1..], x);
    }
  }

  lemma PushThenAll<T>(frontier: seq<T>, c: T, xs: seq<T>, order: Order)
    ensures PushAll(Push(frontier, c, order), xs, order) == PushAll(frontier, [c] + xs, order)
  {
    ReverseCons(c, xs);
  }

  /** Queueing a head child and then the non-goal rest is queueing the non-goal whole. */
  lemma PushHead<T>(p: Problem<T>, frontier: seq<T>, c: T, xs: seq<T>)
    ensures PushAll(if p.goal(c) then frontier else Push(frontier, c, p.order), NonGoals(p, xs), p.order)
         == PushAll(frontier, NonGoals(p, [c] + xs), p.order)
  {
    assert ([c] + xs)[1..] == xs;
    assert NonGoals(p, [c] + xs) == (if p.goal(c) then [] else [c]) + NonGoals(p, xs);
    if p.goal(c) {
      assert NonGoals(p, [c] + xs) == NonGoals(p, xs);
    } else {
      assert NonGoals(p, [c] + xs) == [c] + NonGoals(p, xs);
      PushThenAll(frontier, c, NonGoals(p, xs), p.order);
    }
  }

  /** The expansion loop, described by the stopping child: without one, every non-goal
      child is queued and the incumbent kept; with one and no comparator, the frontier is
      emptied and that child becomes the incumbent; with one and a comparator, the
      non-goal children before it are queued, the rest dropped, and the step reports an
      improvement. */
  lemma {:induction false} ExpandCharacterised<T>(p: Problem<T>, kids: seq<T>, frontier: seq<T>, best: Option<T>)
    ensures var r := Expand(p, kids, frontier, best);
            var k := StopIndex(p, kids, best);
            && (k == |kids| ==> r == StepResult(PushAll(frontier, NonGoals(p, kids), p.order), best, false))
            && (k < |kids| && p.better.None? ==> r == StepResult([], Some(kids[k]), false))
            && (k < |kids| && p.better.Some? ==>
                  r == StepResult(PushAll(frontier, NonGoals(p, kids[..k]), p.order), Some(kids[k]), true))
  {
    if StopIndex(p, kids, best) == |kids| {
      ExpandWithoutStop(p, kids, frontier, best);
    } else {
      ExpandWithStop(p, kids, frontier, best);
    }
  }

  lemma {:induction false} ExpandWithoutStop<T>(p: Problem<T>, kids: seq<T>, frontier: seq<T>, best: Option<T>)
    requires StopIndex(p, kids, best) == |kids|
    ensures Expand(p, kids, frontier, best) == StepResult(PushAll(frontier, NonGoals(p, kids), p.order), best, false)
    decreases |kids|
  {
    if kids != [] {
      var c, tail := kids[0], kids[1..];
      var next := if p.goal(c) then frontier else Push(frontier, c, p.order);
      ExpandPastHead(p, kids, frontier, best);
      ExpandWithoutStop(p, tail, next, best);
      assert kids == [c] + tail;
      PushHead(p, frontier, c, tail);
    }
  }

  lemma ExpandWithStop<T>(p: Problem<T>, kids: seq<T>, frontier: seq<T>, best: Option<T>)
    requires StopIndex(p, kids, best) < |kids|
    ensures var r := Expand(p, kids, frontier, best);
            var k := StopIndex(p, kids, best);
            && (p.better.None? ==> r == StepResult([], Some(kids[k]), false))
            && (p.better.Some? ==>
                  r == StepResult(PushAll(frontier, NonGoals(p, kids[..k]), p.order), Some(kids[k]), true))
  {
    if p.better.None? {
      ExpandStopsFirstGoal(p, kids, frontier, best);
    } else {
      ExpandStopsImproving(p, kids, frontier, best);
    }
  }

  lemma {:induction false} ExpandStopsFirstGoal<T>(p: Problem<T>, kids: seq<T>, frontier: seq<T>, best: Option<T>)
    requires StopIndex(p, kids, best) < |kids| && p.better.None?
    ensures Expand(p, kids, frontier, best) == StepResult([], Some(kids[StopIndex(p, kids, best)]), false)
    decreases |kids|
  {
    if !Stops(p, kids[0], best) {
      var c := kids[0];
      var next := if p.goal(c) then frontier else Push(frontier, c, p.order);
      ExpandPastHead(p, kids, frontier, best);
      ExpandStopsFirstGoal(p, kids[1..], next, best);
    }
  }

  lemma {:induction false} ExpandStopsImproving<T>(p: Problem<T>, kids: seq<T>, frontier: seq<T>, best: Option<T>)
    requires StopIndex(p, kids, best) < |kids| && p.better.Some?
    ensures var k := StopIndex(p, kids, best);
            Expand(p, kids, frontier, best) == StepResult(PushAll(frontier, NonGoals(p, kids[..k]), p.order), Some(kids[k]), true)
    decreases |kids|
  {
    if Stops(p, kids[0], best) {
      assert kids[..0] == [];
    } else {
      var c, tail := kids[0], kids[1..];
      var k := StopIndex(p, kids, best);
      var next := if p.goal(c) then frontier else Push(frontier, c, p.order);
      ExpandPastHead(p, kids, frontier, best);
      ExpandStopsImproving(p, tail, next, best);
      assert kids[..k] == [c] + tail[..k - 1];
      PushHead(p, frontier, c, tail[..k - 1]);
    }
  }

  /** A head child at which the loop does not return is queued unless it is a goal, and
      the loop carries on with the rest. */
  lemma ExpandPastHead<T>(p: Problem<T>, kids: seq<T>, frontier: seq<T>, best: Option<T>)
    requires kids != [] && !Stops(p, kids[0], best)
    ensures var next := if p.goal(kids[0]) then frontier else Push(frontier, kids[0], p.order);
            && Expand(p, kids, frontier, best) == Expand(p, kids[1..], next, best)
            && StopIndex(p, kids, best) == 1 + StopIndex(p, kids[1..], best)
            && (StopIndex(p, kids, best) < |kids| ==> kids[StopIndex(p, kids, best)] == kids[1..][StopIndex(p, kids, best) - 1])
  {
  }

  lemma {:induction false} ReversePermutes<T>(s: seq<T>)
    ensures multiset(Reverse(s)) == multiset(s)
    decreases |s|
  {
    if s != [] {
      ReversePermutes(s[1..]);
      assert s == [s[0]] + s[1..];
    }
  }

  /** Queueing a block of children adds exactly those children to the frontier. */
  lemma PushAllMembers<T>(frontier: seq<T>, xs: seq<T>, order: Order)
    ensures multiset(PushAll(frontier, xs, order)) == multiset(frontier) + multiset(xs)
    ensures forall x :: x in PushAll(frontier, xs, order) ==> x in frontier || x in xs
  {
    ReversePermutes(xs);
    var r := PushAll(frontier, xs, order);
    forall x | x in r
      ensures x in frontier || x in xs
    {
      assert x in multiset(r);
    }
  }

  /** What one step does to the frontier: it removes one node and queues at most the
      node's children, never a goal child; an incumbent that satisfied the goal test still
      does, and the step reports an improvement exactly when a comparator is configured and
      a goal child it prefers (or the first goal, when there was none) replaced the
      incumbent. */
  lemma StepFrontier<T>(p: Problem<T>, frontier: seq<T>, best: Option<T>)
    requires frontier != []
    ensures var r := StepOf(p, frontier, best);
            var kids := p.succ(Next(frontier, p.order));
            && |r.frontier| <= |frontier| - 1 + |kids|
            && (forall x :: x in r.frontier ==> x in Rest(frontier, p.order) || (x in kids && !p.goal(x)))
            && (r.improved <==> p.better.Some? && StopIndex(p, kids, best) < |kids|)
            && (r.improved ==> (r.best.Some? && p.goal(r.best.value)
                                && (best.None? || p.better.value(r.best.value, best.value))))
            && (!r.improved && r.frontier != [] ==> r.best == best)
  {
    var kids := p.succ(Next(frontier, p.order));
    var rest := Rest(frontier, p.order);
    var k := StopIndex(p, kids, best);
    var r := StepOf(p, frontier, best);
    assert r == Expand(p, kids, rest, best);
    ExpandCharacterised(p, kids, rest, best);
    if k < |kids| {
      assert Stops(p, kids[k], best);
    }
    if k == |kids| || p.better.Some? {
      var prefix := if k == |kids| then kids else kids[..k];
      var queued := NonGoals(p, prefix);
      assert r.frontier == PushAll(rest, queued, p.order);
      forall x | x in queued
        ensures x in kids && !p.goal(x)
      {
        var i :| 0 <= i < |queued| && queued[i] == x;
        assert x in prefix;
      }
      assert |rest| == |frontier| - 1;
      assert |queued| <= |prefix| <= |kids|;
      assert |r.frontier| <= |frontier| - 1 + |kids|;
      PushAllMembers(rest, queued, p.order);
      assert (r.improved <==> p.better.Some? && k < |kids|);
    }
  }

  /** The incumbent is `None` or a node that passed the goal test, and a step keeps it so. */
  lemma StepKeepsBestGoal<T>(p: Problem<T>, frontier: seq<T>, best: Option<T>)
    requires best.None? || p.goal(best.value)
    ensures var r := StepOf(p, frontier, best); r.best.None? || p.goal(r.best.value)
  {
    if frontier != [] {
      var kids := p.succ(Next(frontier, p.order));
      ExpandCharacterised(p, kids, Rest(frontier, p.order), best);
    }
  }

  /** Without a comparator, the first goal child becomes the incumbent, the frontier is
      emptied so the search is no longer active, and the step returns false. */
  lemma FirstGoalEndsSearch<T>(p: Problem<T>, frontier: seq<T>, best: Option<T>, i: nat)
    requires p.better.None? && frontier != []
    requires var kids := p.succ(Next(frontier, p.order));
             i < |kids| && p.goal(kids[i]) && forall j :: 0 <= j < i ==> !p.goal(kids[j])
    ensures StepOf(p, frontier, best) == StepResult([], Some(p.succ(Next(frontier, p.order))[i]), false)
  {
    var kids := p.succ(Next(frontier, p.order));
    ExpandCharacterised(p, kids, Rest(frontier, p.order), best);
    assert Stops(p, kids[i], best);
    var k := StopIndex(p, kids, best);
    assert k <= i;
  }

  /** The two orders mirror each other on a frontier stored reversed: queuing at the back
      and queuing at index 0 put a child at the same end of the search order. */
  lemma {:induction false} ExpandMirror<T>(p: Problem<T>, kids: seq<T>, frontier: seq<T>, best: Option<T>)
    ensures var b := Expand(p.(order := Bfs), kids, frontier, best);
            var d := Expand(p.(order := Dfs), kids, Reverse(frontier), best);
            d.frontier == Reverse(b.frontier) && d.best == b.best && d.improved == b.improved
    decreases |kids|
  {
    if kids != [] && !p.goal(kids[0]) {
      ExpandMirror(p, kids[1..], frontier + [kids[0]], best);
      ReverseSnoc(frontier, kids[0]);
    } else if kids != [] && p.goal(kids[0]) && p.better.Some? && !(best.None? || p.better.value(kids[0], best.value)) {
      ExpandMirror(p, kids[1..], frontier, best);
    }
  }

  /** A step with the second order on the reversed frontier expands the same node as a
      "bfs" step and leaves the reversed frontier and the same incumbent. */
  lemma StepMirror<T>(p: Problem<T>, frontier: seq<T>, best: Option<T>)
    ensures var b := StepOf(p.(order := Bfs), frontier, best);
            var d := StepOf(p.(order := Dfs), Reverse(frontier), best);
            d.frontier == Reverse(b.frontier) && d.best == b.best && d.improved == b.improved
  {
    if frontier != [] {
      var rev := Reverse(frontier);
      assert rev == Reverse(frontier[1..]) + [frontier[0]];
      assert Next(rev, Dfs) == frontier[0];
      assert Rest(rev, Dfs) == Reverse(frontier[1..]);
      ExpandMirror(p, p.succ(frontier[0]), frontier[1..], best);
    }
  }

  lemma {:induction false} RunMirrorFrom<T>(p: Problem<T>, frontier: seq<T>, best: Option<T>, improved: bool, n: nat)
    ensures var b := Run(p.(order := Bfs), StepResult(frontier, best, improved), n);
            var d := Run(p.(order := Dfs), StepResult(Reverse(frontier), best, improved), n);
            d.frontier == Reverse(b.frontier) && d.best == b.best && d.improved == b.improved
    decreases n
  {
    if n > 0 {
      StepMirror(p, frontier, best);
      var b := StepOf(p.(order := Bfs), frontier, best);
      RunMirrorFrom(p, b.frontier, b.best, b.improved, n - 1);
    }
  }

  /** From a reset search, any number of steps under either order expands the nodes in the
      same (first-in first-out) order: the incumbent and every return value agree, and the
      second order's frontier is the "bfs" frontier reversed. */
  lemma RunsAgreeFromReset<T>(p: Problem<T>, n0: T, n: nat)
    ensures var b := Run(p.(order := Bfs), StepResult([n0], None, false), n);
            var d := Run(p.(order := Dfs), StepResult([n0], None, false), n);
            d.frontier == Reverse(b.frontier) && d.best == b.best && d.improved == b.improved
  {
    assert Reverse([n0]) == [n0] by {
      assert [n0][1..] == [];
    }
    RunMirrorFrom(p, [n0], None, false, n);
  }

  /** Running to exhaustion does not find the best goal: when the first goal child improves
      the incumbent the step returns at once, so a better goal sibling after it is never
      looked at. Root 0 has the goal children 1 and 2, and 2 is better, yet every run ends
      with an empty frontier and incumbent 1. */
  lemma EarlyReturnMissesBetterGoal(n: nat)
    requires n >= 1
    ensures var p := Problem((v: int) => if v == 0 then [1, 2] else [], (v: int) => v != 0,
                             Some((u: int, v: int) => u > v), Bfs);
            && p.succ(0) == [1, 2] && p.goal(1) && p.goal(2) && p.better.value(2, 1)
            && Run(p, StepResult([0], None, false), n).frontier == []
            && Run(p, StepResult([0], None, false), n).best == Some(1)
  {
    var p := Problem((v: int) => if v == 0 then [1, 2] else [], (v: int) => v != 0,
                     Some((u: int, v: int) => u > v), Bfs);
    var s1 := StepOf(p, [0], None);
    assert s1 == StepResult([], Some(1), true);
    RunFromEmpty(p, s1, n - 1);
  }

  /** Once the frontier is empty, steps change nothing but the return value. */
  lemma {:induction false} RunFromEmpty<T>(p: Problem<T>, s: StepResult<T>, n: nat)
    requires s.frontier == []
    ensures Run(p, s, n).frontier == [] && Run(p, s, n).best == s.best
    decreases n
  {
    if n > 0 {
      RunFromEmpty(p, StepOf(p, s.frontier, s.best), n - 1);
    }
  }

  /** The search engine: the frontier `open` and the incumbent `best` are updated in place. */
  class PathlessTreeSearch<T> {
    const n0: T
    const problem: Problem<T>
    var open: seq<T>
    var best: Option<T>

    /** The incumbent is `None` or a node the goal test accepted. */
    ghost predicate BestIsGoal()
      reads this
    {
      best.None? || problem.goal(best.value)
    }

    constructor (n0: T, succ: T -> seq<T>, goal: T -> bool, better: Option<(T, T) -> bool>, order: string)
      ensures this.n0 == n0 && problem == Problem(succ, goal, better, OrderOf(order))
      ensures open == [n0] && best == None && BestIsGoal()
    {
      this.n0 := n0;
      problem := Problem(succ, goal, better, OrderOf(order));
      new;
      Reset();
    }

    /** Restarts the search from the root. */
    method Reset()
      modifies this
      ensures open == [n0] && best == None && Active() && BestIsGoal()
    {
      open := [n0];
      best := None;
    }

    /** Expands one node; returns whether the incumbent was improved under the comparator. */
    method Step() returns (improved: bool)
      modifies this
      ensures StepResult(open, best, improved) == StepOf(problem, old(open), old(best))
      ensures old(BestIsGoal()) ==> BestIsGoal()
    {
      if best.None? || problem.goal(best.value) {
        StepKeepsBestGoal(problem, open, best);
      }
      if open == [] {
        return false;
      }
      var node: T;
      if problem.order == Bfs {
        node := open[0];
        open := open[1..];
      } else {
        node := open[|open| - 1];
        open := open[..|open| - 1];
      }
      var kids := problem.succ(node);
      var i := 0;
      while i < |kids|
        invariant 0 <= i <= |kids|
        invariant Expand(problem, kids[i..], open, best) == StepOf(problem, old(open), old(best))
      {
        var child := kids[i];
        assert kids[i..][1..] == kids[i + 1..];
        if problem.goal(child) {
          if problem.better.None? {
            best := Some(child);
            open := [];
            return false;
          } else if best.None? || problem.better.value(child, best.value) {
            best := Some(child);
            return true;
          }
        } else if problem.order == Bfs {
          open := open + [child];
        } else {
          open := [child] + open;
        }
        i := i + 1;
      }
      return false;
    }

    /** Whether nodes are left to expand; once it is false a step changes nothing. */
    function Active(): (r: bool)
      reads this
      ensures !r ==> StepOf(problem, open, best) == StepResult(open, best, false)
    {
      |open| > 0
    }

    /** The incumbent: nothing until a goal is recorded, and then a goal node. */
    function Best(): (r: Option<T>)
      reads this
      ensures r == best
      ensures BestIsGoal() ==> r.None? || problem.goal(r.value)
    {
      best
    }
  }
}

/** Encoding of a fixed-variable problem (a table of variable domains and a constraint
    predicate over partial assignments) as a tree search over partial assignments. */
module Assignment {
  import opened Wrappers
  import opened TreeSearch

  /** A dictionary of variable domains: its keys in insertion order and each key's domain. */
  datatype Table<V, D> = Table(vars: seq<V>, domains: map<V, seq<D>>)

  /** What a dictionary guarantees: each key once, and the key list is the key set. */
  ghost predicate WellFormed<V, D>(t: Table<V, D>)
  {
    && (forall i, j :: 0 <= i < j < |t.vars| ==> t.vars[i] != t.vars[j])
    && t.domains.Keys == (set v | v in t.vars)
  }

  /** `domains[k] = dom`: a new key goes to the end of the key order, an existing key keeps
      its place and gets the new domain. */
  function Put<V, D>(t: Table<V, D>, k: V, dom: seq<D>): (r: Table<V, D>)
    ensures WellFormed(t) ==> WellFormed(r)
    ensures r.domains == t.domains[k := dom]
  {
    if k in t.domains then Table(t.vars, t.domains[k := dom]) else Table(t.vars + [k], t.domains[k := dom])
  }

  /** Position of the first variable, in key order, that the assignment leaves unassigned. */
  function FirstUnassigned<V, D>(vars: seq<V>, a: map<V, D>): (k: nat)
    ensures k <= |vars|
    ensures forall j :: 0 <= j < k ==> vars[j] in a
    ensures k < |vars| ==> vars[k] !in a
  {
    if vars == [] then 0
    else if vars[0] !in a then 0
    else 1 + FirstUnassigned(vars[1..], a)
  }

  /** The constraints accept extending `a` by `x` with the value at position j. */
  predicate Accepts<V, D>(a: map<V, D>, x: V, values: seq<D>, constraints: map<V, D> -> bool, j: int)
    requires 0 <= j < |values|
  {
    constraints(a[x := values[j]])
  }

  /** The positions j >= lo of `values`, ascending, that the constraints accept. */
  function AcceptedFrom<V, D>(a: map<V, D>, x: V, values: seq<D>, constraints: map<V, D> -> bool, lo: nat): (js: seq<int>)
    requires lo <= |values|
    ensures forall i :: 0 <= i < |js| ==> lo <= js[i] < |values| && Accepts(a, x, values, constraints, js[i])
    ensures forall i, k :: 0 <= i < k < |js| ==> js[i] < js[k]
    decreases |values| - lo
  {
    if lo == |values| then []
    else (if Accepts(a, x, values, constraints, lo) then [lo] else []) + AcceptedFrom(a, x, values, constraints, lo + 1)
  }

  /** Every accepted position from lo on is listed. */
  lemma {:induction false} AcceptedFromComplete<V, D>(a: map<V, D>, x: V, values: seq<D>, constraints: map<V, D> -> bool, lo: nat)
    requires lo <= |values|
    ensures forall j :: lo <= j < |values| && Accepts(a, x, values, constraints, j) ==> j in AcceptedFrom(a, x, values, constraints, lo)
    decreases |values| - lo
  {
    if lo < |values| {
      AcceptedFromComplete(a, x, values, constraints, lo + 1);
    }
  }

  /** The loop over the domain from position lo on: each value in turn extends `a` by `x`,
      and the copies the constraints accept are kept. */
  function ExtendFrom<V, D>(a: map<V, D>, x: V, values: seq<D>, constraints: map<V, D> -> bool, lo: nat): seq<map<V, D>>
    requires lo <= |values|
    decreases |values| - lo
  {
    if lo == |values| then []
    else (if Accepts(a, x, values, constraints, lo) then [a[x := values[lo]]] else []) + ExtendFrom(a, x, values, constraints, lo + 1)
  }

  /** From position lo on, the loop keeps one child per accepted position, in order. */
  lemma {:induction false} ExtendFromInOrder<V, D>(a: map<V, D>, x: V, values: seq<D>, constraints: map<V, D> -> bool, lo: nat)
    requires lo <= |values|
    ensures var r := ExtendFrom(a, x, values, constraints, lo);
            var js := AcceptedFrom(a, x, values, constraints, lo);
            |r| == |js| && forall i :: 0 <= i < |r| ==> r[i] == a[x := values[js[i]]]
    decreases |values| - lo
  {
    if lo < |values| {
      ExtendFromInOrder(a, x, values, constraints, lo + 1);
      if Accepts(a, x, values, constraints, lo) {
        var rest := ExtendFrom(a, x, values, constraints, lo + 1);
        var later := AcceptedFrom(a, x, values, constraints, lo + 1);
        IndexedCons([a[x := values[lo]]] + rest, rest, [lo] + later, later, a[x := values[lo]], lo,
                    (j: int) => a[x := if 0 <= j < |values| then values[j] else values[lo]]);
      }
    }
  }

  /** Prepending an element and its index keeps a list the image of its index list. */
  lemma IndexedCons<M>(r: seq<M>, rest: seq<M>, js: seq<int>, later: seq<int>, c: M, lo: nat, img: int -> M)
    requires r == [c] + rest && js == [lo] + later && c == img(lo)
    requires |rest| == |later| && forall i :: 0 <= i < |rest| ==> rest[i] == img(later[i])
    ensures |r| == |js| && forall i :: 0 <= i < |r| ==> r[i] == img(js[i])
  {
    forall i | 1 <= i < |r|
      ensures r[i] == img(js[i])
    {
      assert r[i] == rest[i - 1] && js[i] == later[i - 1];
    }
  }

  /** The children for the variable `x` and its domain `values`: one per value the
      constraints accept, in domain order. */
  function Extend<V, D>(a: map<V, D>, x: V, values: seq<D>, constraints: map<V, D> -> bool): (r: seq<map<V, D>>)
    ensures var js := AcceptedFrom(a, x, values, constraints, 0);
            |r| == |js| && forall i :: 0 <= i < |r| ==> r[i] == a[x := values[js[i]]]
  {
    ExtendFromInOrder(a, x, values, constraints, 0);
    ExtendFrom(a, x, values, constraints, 0)
  }

  /** Every child extends the parent by `x` with a domain value and passes the
      constraints, and every accepted value yields a child. */
  lemma ExtendMembers<V, D>(a: map<V, D>, x: V, values: seq<D>, constraints: map<V, D> -> bool)
    ensures var r := Extend(a, x, values, constraints);
            && |r| <= |values|
            && (forall c :: c in r ==> x in c && c == a[x := c[x]] && c[x] in values && constraints(c))
            && (forall v :: v in values && constraints(a[x := v]) ==> a[x := v] in r)
  {
    StrictlyAscendingBound(AcceptedFrom(a, x, values, constraints, 0), |values|);
    ExtendSound(a, x, values, constraints);
    ExtendComplete(a, x, values, constraints);
  }

  lemma ExtendSound<V, D>(a: map<V, D>, x: V, values: seq<D>, constraints: map<V, D> -> bool)
    ensures forall c :: c in Extend(a, x, values, constraints) ==>
              x in c && c == a[x := c[x]] && c[x] in values && constraints(c)
  {
    var r := Extend(a, x, values, constraints);
    var js := AcceptedFrom(a, x, values, constraints, 0);
    forall c | c in r
      ensures x in c && c == a[x := c[x]] && c[x] in values && constraints(c)
    {
      var i :| 0 <= i < |r| && r[i] == c;
      assert Accepts(a, x, values, constraints, js[i]);
    }
  }

  lemma ExtendComplete<V, D>(a: map<V, D>, x: V, values: seq<D>, constraints: map<V, D> -> bool)
    ensures forall v :: v in values && constraints(a[x := v]) ==> a[x := v] in Extend(a, x, values, constraints)
  {
    var r := Extend(a, x, values, constraints);
    var js := AcceptedFrom(a, x, values, constraints, 0);
    AcceptedFromComplete(a, x, values, constraints, 0);
    forall v | v in values && constraints(a[x := v])
      ensures a[x := v] in r
    {
      var j :| 0 <= j < |values| && values[j] == v;
      assert Accepts(a, x, values, constraints, j);
      var i :| 0 <= i < |js| && js[i] == j;
      assert r[i] == a[x := v];
    }
  }

  /** A strictly ascending list of positions below n has at most n entries. */
  lemma {:induction false} StrictlyAscendingBound(js: seq<int>, n: nat)
    requires forall i :: 0 <= i < |js| ==> 0 <= js[i] < n
    requires forall i, k :: 0 <= i < k < |js| ==> js[i] < js[k]
    ensures |js| <= n
    decreases |js|
  {
    if js != [] {
      var init := js[..|js| - 1];
      StrictlyAscendingBound(init, js[|js| - 1]);
    }
  }

  /** The successors of a partial assignment: one child per accepted value of the first
      unassigned variable, none once every variable is assigned. */
  function Succ<V, D>(t: Table<V, D>, constraints: map<V, D> -> bool, a: map<V, D>): seq<map<V, D>>
  {
    var k := FirstUnassigned(t.vars, a);
    if k == |t.vars| then []
    else
      var x := t.vars[k];
      Extend(a, x, if x in t.domains then t.domains[x] else [], constraints)
  }

  /** An assignment is a goal when it has as many entries as there are variables. */
  predicate IsGoal<V, D>(t: Table<V, D>, a: map<V, D>)
  {
    |a| == |t.domains|
  }

  /** Every successor extends its parent (left unchanged) by exactly the first unassigned
      variable with a value from that variable's domain and satisfies the constraints;
      every such accepted extension is a successor, one per accepted domain position, in
      domain order; a full assignment has none. */
  lemma SuccExtendsFirstUnassigned<V, D>(t: Table<V, D>, constraints: map<V, D> -> bool, a: map<V, D>)
    requires WellFormed(t)
    ensures var k := FirstUnassigned(t.vars, a);
            && (k == |t.vars| ==> Succ(t, constraints, a) == [])
            && (k < |t.vars| ==> var x := t.vars[k];
                  && (forall c :: c in Succ(t, constraints, a) ==>
                        && c.Keys == a.Keys + {x} && |c| == |a| + 1
                        && (forall v :: v in a ==> c[v] == a[v])
                        && c[x] in t.domains[x] && constraints(c))
                  && (forall v :: v in t.domains[x] && constraints(a[x := v]) ==> a[x := v] in Succ(t, constraints, a)))
    ensures var k := FirstUnassigned(t.vars, a);
            k < |t.vars| ==>
              var x := t.vars[k];
              var js := AcceptedFrom(a, x, t.domains[x], constraints, 0);
              && |Succ(t, constraints, a)| == |js|
              && forall i :: 0 <= i < |js| ==> Succ(t, constraints, a)[i] == a[x := t.domains[x][js[i]]]
  {
    var k := FirstUnassigned(t.vars, a);
    if k < |t.vars| {
      ExtendMembers(a, t.vars[k], t.domains[t.vars[k]], constraints);
      SuccChildShape(t, constraints, a);
    }
  }

  lemma SuccChildShape<V, D>(t: Table<V, D>, constraints: map<V, D> -> bool, a: map<V, D>)
    requires WellFormed(t) && FirstUnassigned(t.vars, a) < |t.vars|
    ensures var x := t.vars[FirstUnassigned(t.vars, a)];
            forall c :: c in Succ(t, constraints, a) ==> c.Keys == a.Keys + {x} && |c| == |a| + 1
  {
    var x := t.vars[FirstUnassigned(t.vars, a)];
    ExtendMembers(a, x, if x in t.domains then t.domains[x] else [], constraints);
    forall c | c in Succ(t, constraints, a)
      ensures c.Keys == a.Keys + {x} && |c| == |a| + 1
    {
      AddKey(a, x, c[x]);
    }
  }

  lemma AddKey<V, D>(a: map<V, D>, x: V, v: D)
    requires x !in a
    ensures a[x := v].Keys == a.Keys + {x} && |a[x := v]| == |a| + 1
  {
  }

  lemma {:induction false} DistinctCard<V>(s: seq<V>)
    requires forall i, j :: 0 <= i < j < |s| ==> s[i] != s[j]
    ensures |set v | v in s| == |s|
    decreases |s|
  {
    if s != [] {
      DistinctCard(s[1..]);
      var tail := set v | v in s[1..];
      assert (set v | v in s) == tail + {s[0]};
      forall j | 0 <= j < |s[1..]|
        ensures s[1..][j] != s[0]
      {
        assert s[1..][j] == s[j + 1];
      }
      assert s[0] !in tail;
    }
  }

  lemma SubsetOfSameSize<V>(a: set<V>, b: set<V>)
    requires a <= b && |a| == |b|
    ensures a == b
  {
    assert |b - a| == |b| - |a|;
  }

  /** Over assignments to table variables only (all the search ever builds), the goal test
      holds exactly when no variable is left unassigned. */
  lemma GoalIffComplete<V, D>(t: Table<V, D>, a: map<V, D>)
    requires WellFormed(t) && a.Keys <= t.domains.Keys
    ensures IsGoal(t, a) <==> FirstUnassigned(t.vars, a) == |t.vars|
  {
    DistinctCard(t.vars);
    assert t.domains.Keys == set v | v in t.vars;
    var k := FirstUnassigned(t.vars, a);
    if IsGoal(t, a) {
      SubsetOfSameSize(a.Keys, t.domains.Keys);
      assert forall j :: 0 <= j < |t.vars| ==> t.vars[j] in a;
    }
    if k == |t.vars| {
      assert t.domains.Keys <= a.Keys by {
        forall v | v in t.domains.Keys ensures v in a {
          var j :| 0 <= j < |t.vars| && t.vars[j] == v;
        }
      }
      assert a.Keys == t.domains.Keys;
    }
  }

  /** Every assigned variable is a table variable holding a value of its domain: what
      every node the search builds satisfies. */
  ghost predicate Fits<V, D>(t: Table<V, D>, a: map<V, D>)
  {
    forall x :: x in a ==> x in t.domains && a[x] in t.domains[x]
  }

  /** Under constraints that accept everything, every value yields a child, in domain order. */
  lemma ExtendAcceptingAll<V, D>(a: map<V, D>, x: V, values: seq<D>, constraints: map<V, D> -> bool)
    requires forall c :: constraints(c)
    ensures var r := Extend(a, x, values, constraints);
            |r| == |values| && forall i :: 0 <= i < |r| ==> r[i] == a[x := values[i]]
  {
    AcceptedAllFrom(a, x, values, constraints, 0);
  }

  /** Under constraints that accept everything, every position from lo on is accepted. */
  lemma {:induction false} AcceptedAllFrom<V, D>(a: map<V, D>, x: V, values: seq<D>, constraints: map<V, D> -> bool, lo: nat)
    requires forall c :: constraints(c)
    requires lo <= |values|
    ensures var js := AcceptedFrom(a, x, values, constraints, lo);
            |js| == |values| - lo && forall i :: 0 <= i < |js| ==> js[i] == lo + i
    decreases |values| - lo
  {
    if lo < |values| {
      assert Accepts(a, x, values, constraints, lo);
      AcceptedAllFrom(a, x, values, constraints, lo + 1);
    }
  }

  /** Successors of a fitting assignment fit the table too. */
  lemma SuccKeepsFit<V, D>(t: Table<V, D>, constraints: map<V, D> -> bool, a: map<V, D>)
    requires WellFormed(t) && Fits(t, a)
    ensures forall c :: c in Succ(t, constraints, a) ==> Fits(t, c)
  {
    SuccExtendsFirstUnassigned(t, constraints, a);
  }

  /** A fitting goal assigns every variable of the table. */
  lemma GoalAssignsAll<V, D>(t: Table<V, D>, a: map<V, D>)
    requires Fits(t, a) && IsGoal(t, a)
    ensures a.Keys == t.domains.Keys
  {
    SubsetOfSameSize(a.Keys, t.domains.Keys);
  }

  /** `encode_problem`: a search rooted at the empty assignment whose successor and goal
      callbacks are `Succ` and `IsGoal` over the table. */
  method EncodeProblem<V, D>(t: Table<V, D>, constraints: map<V, D> -> bool,
                             better: Option<(map<V, D>, map<V, D>) -> bool>, order: string)
    returns (search: PathlessTreeSearch<map<V, D>>)
    ensures fresh(search) && search.n0 == map[] && search.open == [map[]] && search.best == None
    ensures search.problem.better == better && search.problem.order == OrderOf(order)
    ensures forall a :: search.problem.succ(a) == Succ(t, constraints, a)
    ensures forall a :: search.problem.goal(a) == IsGoal(t, a)
  {
    search := new PathlessTreeSearch(map[], a => Succ(t, constraints, a), a => IsGoal(t, a), better, order);
  }
}
