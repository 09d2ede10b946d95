/** For which playbooks the breaking of cycles drops nothing but dependencies on cycles. */
module CycleEdges {
  import opened StepGraph
  import opened KahnPass
  import opened Sequencer
  import opened CycleBreaking
  import opened RepeatedSteps

  /** x is on a cycle. */
  ghost predicate InCycle<N(!new)>(adj: Adjacency<N>, x: N) {
    exists y :: y in Out(adj, x) && OnCycle(adj, x, y)
  }

  /** No edge leaves a cyclic component. */
  ghost predicate CyclesAreClosed<N(!new)>(adj: Adjacency<N>) {
    forall x, y | y in Out(adj, x) && InCycle(adj, x) :: OnCycle(adj, x, y)
  }

  /** The steps are given in some order, and round i drops this edge. */
  ghost predicate Drops<N(!new)>(all: seq<N>, adj: Adjacency<N>, given: seq<N>, index: map<N, int>,
                                 graphs: seq<Adjacency<N>>, i: nat, from: N, to: N) {
    && multiset(given) == multiset(all) && IsPositions(given, index)
    && graphs != [] && graphs[0] == adj && AreRounds(given, index, graphs)
    && i + 1 < |graphs| && Breaks(given, index, graphs[i], graphs[i + 1], from, to)
  }

  ghost predicate Breaks<N(!new)>(all: seq<N>, index: map<N, int>, adj: Adjacency<N>, adj': Adjacency<N>, from: N, to: N)
    requires Elements(all) <= index.Keys
  {
    exists order :: BreaksAfter(all, index, adj, adj', order, from, to)
  }

  ghost predicate DropsCycleEdgesOnly<N(!new)>(all: seq<N>, adj: Adjacency<N>) {
    forall given, index, graphs, i, from, to {:trigger Drops(all, adj, given, index, graphs, i, from, to)} |
      Drops(all, adj, given, index, graphs, i, from, to) :: OnCycle(adj, from, to)
  }

  ghost predicate EdgesOf<N(!new)>(adj: Adjacency<N>, within: Adjacency<N>) {
    forall m, n :: n in Out(adj, m) ==> n in Out(within, m)
  }

  // --- every stuck step is on a cycle, if cycles are closed ---

  lemma {:induction false} WithoutIsPart<N>(s: seq<N>, x: N, n: N)
    ensures n in Without(s, x) ==> n in s
  {
    if s != [] { WithoutIsPart(s[1..], x, n); }
  }

  lemma RoundShrinks<N(!new)>(all: seq<N>, index: map<N, int>, adj: Adjacency<N>, adj': Adjacency<N>)
    requires Elements(all) <= index.Keys && IsRound(all, index, adj, adj')
    ensures EdgesOf(adj', adj)
  {
    var order, from, to :| BreaksAfter(all, index, adj, adj', order, from, to);
    forall m, n ensures n in Out(adj', m) ==> n in Out(adj, m) {
      WithoutIsPart(adj[from], to, n);
    }
  }

  lemma RoundsShrink<N(!new)>(all: seq<N>, index: map<N, int>, graphs: seq<Adjacency<N>>, i: nat)
    requires Elements(all) <= index.Keys && AreRounds(all, index, graphs) && i < |graphs|
    ensures EdgesOf(graphs[i], graphs[0])
  {
    if i > 0 {
      RoundsShrink(all, index, graphs, i - 1);
      assert RoundAt(all, index, graphs, i - 1);
      RoundShrinks(all, index, graphs[i - 1], graphs[i]);
    }
  }

  /** A walk of stuck steps to n, as long as one likes. */
  lemma StuckWalk<N(!new)>(all: seq<N>, adj: Adjacency<N>, index: map<N, int>, order: seq<N>, n: N, len: nat) returns (walk: seq<N>)
    requires Elements(all) <= index.Keys && IsPassOf(all, adj, index, order) && n in all && n !in order
    ensures |walk| == len + 1 && IsWalk(adj, walk) && walk[len] == n
    ensures forall x | x in walk :: x in all && x !in order
  {
    walk := [n];
    for i := 0 to len
      invariant |walk| == i + 1 && IsWalk(adj, walk) && walk[i] == n
      invariant forall x | x in walk :: x in all && x !in order
    {
      var m := StuckHasStuck(all, adj, index, order, walk[0]);
      WalkFrom(adj, m, walk);
      walk := [m] + walk;
    }
  }

  lemma WalkFrom<N(!new)>(adj: Adjacency<N>, m: N, walk: seq<N>)
    requires IsWalk(adj, walk) && walk[0] in Out(adj, m)
    ensures IsWalk(adj, [m] + walk)
  {
    var longer := [m] + walk;
    forall k | 0 <= k < |longer| - 1 ensures longer[k + 1] in Out(adj, longer[k]) {
      if k > 0 { assert walk[k - 1 + 1] in Out(adj, walk[k - 1]); }
    }
  }

  /** A walk with more entries than there are names comes back to one of them. */
  lemma Returns<N(!new)>(walk: seq<N>, names: set<N>) returns (i: nat, j: nat)
    requires Elements(walk) <= names && |walk| > |names|
    ensures i < j < |walk| && walk[i] == walk[j]
  {
    if Distinct(walk) {
      DistinctLength(walk, Elements(walk));
      FewerElements(Elements(walk), names);
      assert false;
    }
    i, j :| 0 <= i < j < |walk| && walk[i] == walk[j];
  }

  lemma FewerElements<N>(a: set<N>, b: set<N>)
    requires a <= b
    ensures |a| <= |b|
  {
    assert b == a + (b - a);
  }

  lemma {:induction false} ElementCount<N(!new)>(all: seq<N>)
    ensures |Elements(all)| <= |all|
  {
    if all != [] {
      var front, last := all[..|all| - 1], all[|all| - 1];
      assert all == front + [last];
      assert Elements(all) == Elements(front) + {last};
      ElementCount(front);
    }
  }

  lemma WalkWithin<N(!new)>(adj: Adjacency<N>, within: Adjacency<N>, walk: seq<N>, i: nat, j: nat)
    requires IsWalk(adj, walk) && EdgesOf(adj, within) && i < j <= |walk|
    ensures IsWalk(within, walk[i..j])
  {
    var part := walk[i..j];
    forall k | 0 <= k < |part| - 1 ensures part[k + 1] in Out(within, part[k]) {
      assert walk[i + k + 1] in Out(adj, walk[i + k]);
    }
  }

  lemma ClosedIsCycle<N(!new)>(adj: Adjacency<N>, walk: seq<N>)
    requires IsWalk(adj, walk) && |walk| > 1 && walk[0] == walk[|walk| - 1]
    ensures InCycle(adj, walk[0])
  {
    assert walk[0 + 1] in Out(adj, walk[0]);
    assert CycleThrough(adj, walk, walk[0], walk[1]);
  }

  lemma NextInCycle<N(!new)>(adj: Adjacency<N>, x: N, y: N)
    requires y in Out(adj, x) && OnCycle(adj, x, y)
    ensures InCycle(adj, y)
  {
    OnCycleIff(adj, x, y);
    var walk :| IsWalk(adj, walk) && walk[0] == y && walk[|walk| - 1] == x;
    var closed := walk + [y];
    forall k | 0 <= k < |closed| - 1 ensures closed[k + 1] in Out(adj, closed[k]) {
      if k + 1 < |walk| { assert walk[k + 1] in Out(adj, walk[k]); }
    }
    ClosedIsCycle(adj, closed);
  }

  /** With closed cycles, what a cycle leads to is on one. */
  lemma AlongWalk<N(!new)>(adj: Adjacency<N>, walk: seq<N>)
    requires CyclesAreClosed(adj) && IsWalk(adj, walk) && InCycle(adj, walk[0])
    ensures InCycle(adj, walk[|walk| - 1])
  {
    for k := 0 to |walk| - 1
      invariant InCycle(adj, walk[k])
    {
      assert walk[k + 1] in Out(adj, walk[k]);
      NextInCycle(adj, walk[k], walk[k + 1]);
    }
  }

  lemma StuckIsInCycle<N(!new)>(all: seq<N>, index: map<N, int>, adj: Adjacency<N>, within: Adjacency<N>, order: seq<N>, n: N)
    requires Elements(all) <= index.Keys && IsPassOf(all, adj, index, order) && n in all && n !in order
    requires EdgesOf(adj, within) && CyclesAreClosed(within)
    ensures InCycle(within, n)
  {
    var walk := StuckWalk(all, adj, index, order, n, |all|);
    ElementCount(all);
    var i, j := Returns(walk, Elements(all));
    WalkWithin(adj, within, walk, i, j + 1);
    WalkWithin(adj, within, walk, i, |walk|);
    ClosedIsCycle(within, walk[i..j + 1]);
    AlongWalk(within, walk[i..]);
  }

  lemma ClosedDropsCycleEdges<N(!new)>(all: seq<N>, adj: Adjacency<N>, given: seq<N>, index: map<N, int>,
                                       graphs: seq<Adjacency<N>>, i: nat, from: N, to: N)
    requires CyclesAreClosed(adj) && Drops(all, adj, given, index, graphs, i, from, to)
    ensures OnCycle(adj, from, to)
  {
    var order :| BreaksAfter(given, index, graphs[i], graphs[i + 1], order, from, to);
    DroppedEdgeIsOnCycleIff(given, index, graphs[i], graphs[i + 1], order, from, to);
    RoundsShrink(given, index, graphs, i);
    StuckIsInCycle(given, index, graphs[i], adj, order, from);
    assert to in Out(adj, from);
  }

  // --- an edge that leaves a cycle can be dropped ---

  lemma {:induction false} WalkComesFirst<N(!new)>(names: set<N>, adj: Adjacency<N>, deg: Degrees<N>, order: seq<N>, walk: seq<N>, p: nat)
    returns (q: nat)
    requires IsGraph(names, adj, deg) && Respects(names, adj, order) && p < |order|
    requires IsWalk(adj, walk) && |walk| > 1 && order[p] == walk[|walk| - 1]
    ensures q < p && order[q] == walk[0]
    decreases |walk|
  {
    var m := walk[|walk| - 2];
    assert walk[|walk| - 2 + 1] in Out(adj, m);
    assert m in Preds(names, adj, order[p]);
    assert m in Elements(order[..p]);
    var r :| 0 <= r < p && order[..p][r] == m;
    if |walk| == 2 {
      q := r;
    } else {
      WalkWithin(adj, adj, walk, 0, |walk| - 1);
      q := WalkComesFirst(names, adj, deg, order, walk[..|walk| - 1], r);
    }
  }

  /** Without repeated names nothing on a cycle is listed. */
  lemma CycleIsStuck<N(!new)>(all: seq<N>, adj: Adjacency<N>, deg: Degrees<N>, index: map<N, int>, order: seq<N>, x: N)
    requires Elements(all) <= index.Keys && IsGraph(Elements(all), adj, deg) && IsPassOf(all, adj, index, order)
    requires forall n | n in all :: multiset(all)[n] == 1
    requires InCycle(adj, x)
    ensures x !in order && Respects(Elements(all), adj, order)
  {
    PassWithoutCopies(all, adj, index, order);
    PassIsOrder(Elements(all), adj, index, order);
    var y :| y in Out(adj, x) && OnCycle(adj, x, y);
    OnCycleIff(adj, x, y);
    var walk :| IsWalk(adj, walk) && walk[0] == y && walk[|walk| - 1] == x;
    WalkFrom(adj, x, walk);
    if p :| 0 <= p < |order| && order[p] == x {
      var q := WalkComesFirst(Elements(all), adj, deg, order, [x] + walk, p);
      assert false;
    }
  }

  /** The same names, with a first and b last. */
  lemma Between<N(!new)>(all: seq<N>, a: N, b: N) returns (given: seq<N>)
    requires a in all && b in all && a != b
    ensures |given| > 1 && given[0] == a && given[|given| - 1] == b
    ensures multiset(given) == multiset(all) && Elements(given) == Elements(all)
  {
    var last := MoveToEnd(all, b);
    assert a in Elements(last);
    var i :| 0 <= i < |last| && last[i] == a;
    given := [a] + last[..i] + last[i + 1..];
    assert last == last[..i] + [a] + last[i + 1..];
    SameElements(given, all);
  }

  lemma {:induction false} FirstUnlisted<N>(all: seq<N>, done: set<N>)
    requires all != [] && all[0] !in done
    ensures Unlisted(all, done) != [] && Unlisted(all, done)[0] == all[0]
  {
    if |all| > 1 {
      FirstUnlisted(all[..|all| - 1], done);
    } else {
      assert all[..0] == [];
    }
  }

  lemma LeavingIsDropped<N(!new)>(all: seq<N>, adj: Adjacency<N>, deg: Degrees<N>, a: N, b: N)
    returns (given: seq<N>, index: map<N, int>, graphs: seq<Adjacency<N>>)
    requires IsGraph(Elements(all), adj, deg) && (forall n | n in all :: multiset(all)[n] == 1)
    requires b in Out(adj, a) && InCycle(adj, a) && a != b
    ensures Drops(all, adj, given, index, graphs, 0, a, b)
  {
    EndsAreNames(Elements(all), adj, deg, a, b);
    given := Between(all, a, b);
    index := PositionsExist(given);
    SameCopies(given, all);
    graphs := DropsFirst(given, adj, deg, index, a, b);
  }

  lemma DropsFirst<N(!new)>(given: seq<N>, adj: Adjacency<N>, deg: Degrees<N>, index: map<N, int>, a: N, b: N)
    returns (graphs: seq<Adjacency<N>>)
    requires IsGraph(Elements(given), adj, deg) && (forall n | n in given :: multiset(given)[n] == 1)
    requires IsPositions(given, index) && |given| > 1 && given[0] == a && given[|given| - 1] == b
    requires b in Out(adj, a) && InCycle(adj, a)
    ensures Drops(given, adj, given, index, graphs, 0, a, b)
  {
    var adj' := LeavingBreaks(given, adj, deg, index, a, b);
    graphs := [adj, adj'];
    OneRound(given, index, adj, adj', a, b);
  }

  lemma EndsAreNames<N(!new)>(names: set<N>, adj: Adjacency<N>, deg: Degrees<N>, a: N, b: N)
    requires IsGraph(names, adj, deg) && b in Out(adj, a)
    ensures a in names && b in names
  {
    assert b in Elements(adj[a]);
  }

  lemma SameCopies<N(!new)>(given: seq<N>, all: seq<N>)
    requires multiset(given) == multiset(all) && forall n | n in all :: multiset(all)[n] == 1
    ensures forall n | n in given :: multiset(given)[n] == 1
  {
    SameElements(given, all);
    forall n | n in given ensures multiset(given)[n] == 1 { assert n in Elements(all); }
  }

  lemma OneRound<N(!new)>(given: seq<N>, index: map<N, int>, adj: Adjacency<N>, adj': Adjacency<N>, a: N, b: N)
    requires Elements(given) <= index.Keys && Breaks(given, index, adj, adj', a, b)
    ensures AreRounds(given, index, [adj, adj'])
  {
    var graphs := [adj, adj'];
    var order :| BreaksAfter(given, index, adj, adj', order, a, b);
    assert IsRound(given, index, adj, adj');
    forall i: nat | i + 1 < |graphs| ensures RoundAt(given, index, graphs, i) { assert i == 0; }
  }

  lemma DependentIsStuck<N(!new)>(names: set<N>, adj: Adjacency<N>, order: seq<N>, a: N, b: N)
    requires Respects(names, adj, order) && a in names && b in Out(adj, a) && a !in order
    ensures b !in order
  {
    forall k | 0 <= k < |order| ensures order[k] != b {
      assert Preds(names, adj, order[k]) <= Elements(order[..k]);
      assert a !in Elements(order[..k]);
    }
  }

  lemma LeavingBreaks<N(!new)>(given: seq<N>, adj: Adjacency<N>, deg: Degrees<N>, index: map<N, int>, a: N, b: N)
    returns (adj': Adjacency<N>)
    requires IsGraph(Elements(given), adj, deg) && (forall n | n in given :: multiset(given)[n] == 1)
    requires IsPositions(given, index) && |given| > 1 && given[0] == a && given[|given| - 1] == b
    requires b in Out(adj, a) && InCycle(adj, a)
    ensures Breaks(given, index, adj, adj', a, b)
  {
    var order := PassExists(given, adj, index, []);
    CycleIsStuck(given, adj, deg, index, order, a);
    assert a in Elements(given);
    DependentIsStuck(Elements(given), adj, order, a, b);
    adj' := adj[a := Without(adj[a], b)];
    FirstToLast(given, adj, adj', index, order, a, b);
  }

  lemma FirstToLast<N(!new)>(given: seq<N>, adj: Adjacency<N>, adj': Adjacency<N>, index: map<N, int>, order: seq<N>, a: N, b: N)
    requires IsPositions(given, index) && IsPassOf(given, adj, index, order) && |given| > 1
    requires given[0] == a && given[|given| - 1] == b && a !in order && b !in order
    requires a in adj && b in adj[a] && adj' == adj[a := Without(adj[a], b)]
    ensures BreaksAfter(given, index, adj, adj', order, a, b)
  {
    var members := Unlisted(given, Elements(order));
    UnlistedElements(given, Elements(order));
    FirstUnlisted(given, Elements(order));
    assert b in Elements(members);
    forall m | m in members ensures m in Elements(members) && index[m] <= index[b] {
      assert m in Elements(members);
    }
    assert FirstIntoAt(adj, members, a, b, 0);
  }

  /** For distinct steps: whatever order they are given in, only dependencies on cycles are dropped, if and
      only if no dependency leaves a cyclic component. */
  lemma DropsCycleEdgesOnlyIff<N(!new)>(all: seq<N>, adj: Adjacency<N>, deg: Degrees<N>)
    requires IsGraph(Elements(all), adj, deg) && forall n | n in all :: multiset(all)[n] == 1
    ensures DropsCycleEdgesOnly(all, adj) <==> CyclesAreClosed(adj)
  {
    if CyclesAreClosed(adj) {
      forall given, index, graphs, i, from, to | Drops(all, adj, given, index, graphs, i, from, to)
        ensures OnCycle(adj, from, to)
      {
        ClosedDropsCycleEdges(all, adj, given, index, graphs, i, from, to);
      }
    } else {
      var a, b :| b in Out(adj, a) && InCycle(adj, a) && !OnCycle(adj, a, b);
      LoopIsCycle(adj, b);
      var given, index, graphs := LeavingIsDropped(all, adj, deg, a, b);
    }
  }

  lemma LoopIsCycle<N(!new)>(adj: Adjacency<N>, x: N)
    ensures x in Out(adj, x) ==> OnCycle(adj, x, x)
  {
    if x in Out(adj, x) {
      OnCycleIff(adj, x, x);
      assert IsWalk(adj, [x]) && [x][0] == x;
    }
  }
}
