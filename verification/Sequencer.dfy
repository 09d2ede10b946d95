/** The step sequencer: Kahn's algorithm, lowest original position first, with cycles
    broken one edge at a time.  Names may be repeated. */
module Sequencer {
  import opened StepGraph
  import opened KahnPass

  /** The node of lowest original position in the queue. */
  method PickLowest<N(==,!new)>(queue: seq<N>, index: map<N, int>) returns (bestIdx: nat)
    requires queue != [] && Elements(queue) <= index.Keys
    ensures bestIdx < |queue|
    ensures forall i | 0 <= i < |queue| :: index[queue[bestIdx]] <= index[queue[i]]
  {
    bestIdx := 0;
    for i := 1 to |queue|
      invariant bestIdx < |queue|
      invariant forall j | 0 <= j < i :: index[queue[bestIdx]] <= index[queue[j]]
    {
      assert queue[i] in Elements(queue) && queue[bestIdx] in Elements(queue);
      if index[queue[i]] < index[queue[bestIdx]] {
        bestIdx := i;
      }
    }
  }

  /** The counters and the queue when the nodes of order have been listed. */
  ghost predicate Counted<N(!new)>(all: seq<N>, adj: Adjacency<N>, order: seq<N>, d: Degrees<N>, queue: seq<N>) {
    && d.Keys == Elements(all)
    && (forall n | n in all :: d[n] == Prerequisites(all, adj, n) - Hits(adj, order, n))
    && (forall n :: multiset(order)[n] + multiset(queue)[n] == if n in all then Owed(all, adj, order, n) else 0)
  }

  function Roots<N(==)>(all: seq<N>, d: Degrees<N>): seq<N> {
    if all == [] then []
    else
      var last := all[|all| - 1];
      Roots(all[..|all| - 1], d) + if last in d && d[last] == 0 then [last] else []
  }

  lemma {:induction false} RootCopies<N>(all: seq<N>, d: Degrees<N>, n: N)
    ensures multiset(Roots(all, d))[n] == if n in d && d[n] == 0 then multiset(all)[n] else 0
  {
    if all != [] {
      var front, last := all[..|all| - 1], all[|all| - 1];
      RootCopies(front, d, n);
      assert all == front + [last];
    }
  }

  /** Every copy of a name of in-degree zero, in original order. */
  method InitialQueue(steps: seq<Step>, d: Degrees<string>) returns (queue: seq<string>)
    requires NameSet(steps) <= d.Keys
    ensures queue == Roots(NamesOf(steps), d)
  {
    ghost var all := NamesOf(steps);
    queue := [];
    for i := 0 to |steps|
      invariant queue == Roots(all[..i], d)
    {
      RootsNext(all, d, i);
      assert steps[i].name in NameSet(steps);
      if d[steps[i].name] == 0 {
        queue := queue + [steps[i].name];
      }
    }
    assert all[..|steps|] == all;
  }

  lemma RootsNext<N>(all: seq<N>, d: Degrees<N>, i: nat)
    requires i < |all|
    ensures Roots(all[..i + 1], d) == if all[i] in d && d[all[i]] == 0 then Roots(all[..i], d) + [all[i]] else Roots(all[..i], d)
  {
    assert all[..i + 1][..i] == all[..i];
  }

  /** Counts down the successors of a node that has just been listed, and queues those that reach zero. */
  method Relax<N(==,!new)>(neighbors: seq<N>, d: Degrees<N>, queue: seq<N>) returns (d': Degrees<N>, queue': seq<N>)
    requires Distinct(neighbors) && Elements(neighbors) <= d.Keys
    ensures d'.Keys == d.Keys && forall n | n in d :: d'[n] == d[n] - if n in neighbors then 1 else 0
    ensures forall n :: multiset(queue')[n] == multiset(queue)[n] + if n in neighbors && n in d && d[n] == 1 then 1 else 0
  {
    d', queue' := d, queue;
    for j := 0 to |neighbors|
      invariant d'.Keys == d.Keys && forall n | n in d :: d'[n] == d[n] - if n in neighbors[..j] then 1 else 0
      invariant forall n :: multiset(queue')[n] == multiset(queue)[n] + if n in neighbors[..j] && n in d && d[n] == 1 then 1 else 0
    {
      var neighbor := neighbors[j];
      assert neighbor in Elements(neighbors) && neighbor !in neighbors[..j];
      assert neighbors[..j + 1] == neighbors[..j] + [neighbor];
      d' := d'[neighbor := d'[neighbor] - 1];
      if d'[neighbor] == 0 {
        queue' := queue' + [neighbor];
      }
    }
    assert neighbors[..|neighbors|] == neighbors;
  }

  lemma CountedNext<N(!new)>(all: seq<N>, adj: Adjacency<N>, order: seq<N>, d: Degrees<N>, queue: seq<N>,
                             n: N, rest: seq<N>, d': Degrees<N>, queue': seq<N>)
    requires Counted(all, adj, order, d, queue) && n in all && multiset(queue) == multiset(rest) + multiset{n}
    requires d'.Keys == d.Keys && forall m | m in d :: d'[m] == d[m] - if m in Out(adj, n) then 1 else 0
    requires Elements(Out(adj, n)) <= d.Keys
    requires forall m ::
      multiset(queue')[m] == multiset(rest)[m] + if m in Out(adj, n) && m in d && d[m] == 1 then 1 else 0
    ensures Counted(all, adj, order + [n], d', queue')
  {
    forall m | m in all ensures d'[m] == Prerequisites(all, adj, m) - Hits(adj, order + [n], m) {
      HitsGrow(adj, order, n, m);
    }
    forall m
      ensures multiset(order + [n])[m] + multiset(queue')[m] == if m in all then Owed(all, adj, order + [n], m) else 0
    {
      OwedAfter(all, adj, order, n, m);
      assert multiset(order + [n])[m] == multiset(order)[m] + if m == n then 1 else 0;
      assert m in Out(adj, n) ==> m in Elements(Out(adj, n));
    }
  }

  lemma QueueIsPending<N(!new)>(all: seq<N>, adj: Adjacency<N>, order: seq<N>, d: Degrees<N>, queue: seq<N>)
    requires Counted(all, adj, order, d, queue)
    ensures Elements(queue) == Pending(all, adj, order)
  {
    forall n ensures n in Elements(queue) <==> n in Pending(all, adj, order) {
      assert n in queue <==> multiset(queue)[n] > 0;
    }
  }

  lemma TakeFromQueue<N>(queue: seq<N>, i: nat)
    requires i < |queue|
    ensures multiset(queue) == multiset(queue[..i] + queue[i + 1..]) + multiset{queue[i]}
  {
    assert queue == queue[..i] + [queue[i]] + queue[i + 1..];
  }

  /** Takes the lowest node from the queue and counts down its successors. */
  method OutputLowest<N(==,!new)>(
    ghost all: seq<N>, adj: Adjacency<N>, ghost deg: Degrees<N>, index: map<N, int>,
    ghost order: seq<N>, d: Degrees<N>, queue: seq<N>)
    returns (current: N, d': Degrees<N>, queue': seq<N>)
    requires Elements(all) <= index.Keys && IsGraph(Elements(all), adj, deg)
    requires ListsLowest(all, adj, index, order) && Counted(all, adj, order, d, queue) && queue != []
    ensures current in all && |order| < |all|
    ensures ListsLowest(all, adj, index, order + [current]) && Counted(all, adj, order + [current], d', queue')
  {
    QueueIsPending(all, adj, order, d, queue);
    var bestIdx := PickLowest(queue, index);
    current := queue[bestIdx];
    TakeFromQueue(queue, bestIdx);
    LowestIsNext(all, adj, index, order, queue, bestIdx);
    ListGrows(all, adj, index, order, current);
    ListedFits(all, adj, index, order + [current]);
    var rest := queue[..bestIdx] + queue[bestIdx + 1..];
    d', queue' := Relax(Out(adj, current), d, rest);
    CountedNext(all, adj, order, d, queue, current, rest, d', queue');
  }

  lemma LowestIsNext<N(!new)>(all: seq<N>, adj: Adjacency<N>, index: map<N, int>, order: seq<N>, queue: seq<N>, i: nat)
    requires Elements(all) <= index.Keys && Elements(queue) == Pending(all, adj, order) && i < |queue|
    requires queue[i] in index && forall j | 0 <= j < |queue| :: queue[j] in index && index[queue[i]] <= index[queue[j]]
    ensures IsNext(all, adj, index, order, queue[i])
  {
    assert queue[i] in Elements(queue);
    forall m | m in Pending(all, adj, order) ensures index[queue[i]] <= index[m] {
      assert m in Elements(queue);
      var j :| 0 <= j < |queue| && queue[j] == m;
    }
  }

  /** A step list with its graph. */
  predicate Prepared(steps: seq<Step>, adj: Adjacency<string>, deg: Degrees<string>, index: map<string, int>) {
    IsGraph(NameSet(steps), adj, deg) && IsIndex(steps, index)
  }

  /** The listed steps are those at the positions of their names: of a repeated name, always the last. */
  predicate FromIndex(steps: seq<Step>, index: map<string, int>, result: seq<Step>) {
    forall s | s in result :: s.name in index && 0 <= index[s.name] < |steps| && s == steps[index[s.name]]
  }

  /** One pass of Kahn's algorithm. */
  method RunKahn(steps: seq<Step>, adj: Adjacency<string>, deg: Degrees<string>, index: map<string, int>)
    returns (result: seq<Step>)
    requires Prepared(steps, adj, deg, index)
    ensures Elements(NamesOf(steps)) <= index.Keys && IsPassOf(NamesOf(steps), adj, index, NamesOf(result))
    ensures FromIndex(steps, index, result)
  {
    ghost var all := NamesOf(steps);
    NamesAreElements(steps);
    var d := deg;
    var queue := InitialQueue(steps, d);
    result := [];
    BeginPass(all, adj, deg, queue);
    while queue != []
      invariant ListsLowest(all, adj, index, NamesOf(result)) && Counted(all, adj, NamesOf(result), d, queue)
      invariant FromIndex(steps, index, result)
      decreases |all| - |result|
    {
      var current;
      current, d, queue := OutputLowest(all, adj, deg, index, NamesOf(result), d, queue);
      var step := steps[index[current]];
      NamesOfAppend(result, step);
      result := result + [step];
    }
    QueueIsPending(all, adj, NamesOf(result), d, queue);
  }

  lemma NamesOfAppend(steps: seq<Step>, step: Step)
    ensures NamesOf(steps + [step]) == NamesOf(steps) + [step.name]
  {
    assert (steps + [step])[..|steps|] == steps;
  }

  lemma BeginPass<N(!new)>(all: seq<N>, adj: Adjacency<N>, deg: Degrees<N>, queue: seq<N>)
    requires IsGraph(Elements(all), adj, deg)
    requires queue == Roots(all, deg)
    ensures Counted(all, adj, [], deg, queue)
  {
    forall n ensures multiset(queue)[n] == if n in all then Owed(all, adj, [], n) else 0 {
      RootCopies(all, deg, n);
      NothingHit(all, adj, n);
      assert n in Elements(all) <==> n in all;
    }
    forall n | n in all ensures deg[n] == Prerequisites(all, adj, n) - Hits(adj, [], n) { assert n in Elements(all); }
  }

  lemma NothingHit<N(!new)>(all: seq<N>, adj: Adjacency<N>, n: N)
    ensures Hits(adj, [], n) == 0
    ensures Owed(all, adj, [], n) == if Prerequisites(all, adj, n) == 0 then multiset(all)[n] else 0
  {
  }

  lemma {:induction false} WithoutAt<N>(list: seq<N>, x: N, p: nat)
    requires p < |list| && list[p] == x && x !in list[..p]
    ensures Without(list, x) == list[..p] + list[p + 1..]
  {
    if p > 0 {
      assert list[0] == list[..p][0];
      assert list[1..][..p - 1] == list[..p][1..];
      WithoutAt(list[1..], x, p - 1);
      assert list[..p] == [list[0]] + list[1..][..p - 1];
      assert list[1..][p..] == list[p + 1..];
    }
  }

  lemma {:induction false} WithoutAbsent<N>(list: seq<N>, x: N)
    requires x !in list
    ensures Without(list, x) == list
  {
    if list != [] {
      WithoutAbsent(list[1..], x);
      assert list == [list[0]] + list[1..];
    }
  }

  /** The loop that rebuilds an adjacency list without one edge. */
  method DropFirst<N(==)>(list: seq<N>, x: N) returns (newList: seq<N>, removed: bool)
    ensures newList == Without(list, x) && (removed <==> x in list)
  {
    newList, removed := [], false;
    ghost var p := 0;
    for i := 0 to |list|
      invariant if removed then p < i && list[p] == x && x !in list[..p] && newList == list[..p] + list[p + 1..i]
                else x !in list[..i] && newList == list[..i]
    {
      if list[i] == x && !removed {
        removed, p := true, i;
      } else {
        newList := newList + [list[i]];
      }
    }
    if removed { WithoutAt(list, x, p); } else { WithoutAbsent(list, x); }
  }

  /** The member of highest original position. */
  method PickHighest<N(==)>(members: seq<N>, index: map<N, int>) returns (highestName: N)
    requires members != [] && Elements(members) <= index.Keys
    ensures highestName in members && forall m | m in members :: index[m] <= index[highestName]
  {
    assert members[0] in Elements(members);
    highestName := members[0];
    for i := 1 to |members|
      invariant highestName in members && highestName in index
      invariant forall j | 0 <= j < i :: members[j] in index && index[members[j]] <= index[highestName]
    {
      assert members[i] in Elements(members);
      if index[members[i]] > index[highestName] {
        highestName := members[i];
      }
    }
  }

  ghost predicate HasPredecessorIn<N(!new)>(adj: Adjacency<N>, members: seq<N>, n: N) {
    exists m :: m in members && n in Out(adj, m)
  }

  /** Removes the first edge found that leads from a member to the given node. */
  method DropEdgeInto<N(==,!new)>(adj: Adjacency<N>, deg: Degrees<N>, members: seq<N>, to: N)
    returns (adj': Adjacency<N>, deg': Degrees<N>, ghost from: N)
    requires to in deg && HasPredecessorIn(adj, members, to)
    ensures IsFirstInto(adj, members, from, to) && from in adj
    ensures adj' == adj[from := Without(adj[from], to)] && deg' == deg[to := deg[to] - 1]
  {
    for i := 0 to |members|
      invariant forall j | 0 <= j < i :: to !in Out(adj, members[j])
    {
      var newAdj, removed := DropFirst(Out(adj, members[i]), to);
      if removed {
        assert FirstIntoAt(adj, members, members[i], to, i);
        return adj[members[i] := newAdj], deg[to := deg[to] - 1], members[i];
      }
    }
    assert false;
  }

  /** Drops the edge from the first stuck node that has one into the stuck node of highest position. */
  method BreakCycle<N(==,!new)>(ghost names: set<N>, adj: Adjacency<N>, deg: Degrees<N>, index: map<N, int>, members: seq<N>)
    returns (adj': Adjacency<N>, deg': Degrees<N>, ghost from: N, ghost to: N)
    requires IsGraph(names, adj, deg) && members != [] && Elements(members) <= names <= index.Keys
    requires forall n {:trigger HasPredecessorIn(adj, members, n)} | n in members :: HasPredecessorIn(adj, members, n)
    ensures IsBreak(adj, adj', members, index, from, to) && IsGraph(names, adj', deg')
  {
    var highestName := PickHighest(members, index);
    to := highestName;
    assert highestName in Elements(members) && HasPredecessorIn(adj, members, highestName);
    adj', deg', from := DropEdgeInto(adj, deg, members, highestName);
    assert forall m | m in members :: m in Elements(members);
    BreakDropsEdge(names, adj, adj', deg, members, index, from, to);
  }

  /** The names that a pass did not list, in original order. */
  function Unlisted<N(==)>(all: seq<N>, done: set<N>): seq<N> {
    if all == [] then []
    else Unlisted(all[..|all| - 1], done) + if all[|all| - 1] in done then [] else [all[|all| - 1]]
  }

  lemma ElementsOfMore<N>(s: seq<N>, x: N)
    ensures Elements(s + [x]) == Elements(s) + {x}
  {
  }

  lemma {:induction false} UnlistedElements<N>(all: seq<N>, done: set<N>)
    ensures Elements(Unlisted(all, done)) == Elements(all) - done
  {
    if all != [] {
      var front, last := all[..|all| - 1], all[|all| - 1];
      UnlistedElements(front, done);
      assert all == front + [last];
      ElementsOfMore(front, last);
      ElementsOfMore(Unlisted(front, done), last);
      assert Unlisted(all, done) == Unlisted(front, done) + if last in done then [] else [last];
      assert Elements(Unlisted(all, done)) == Elements(Unlisted(front, done)) + if last in done then {} else {last};
      assert Elements(all) == Elements(front) + {last};
    }
  }

  method LeftOut(steps: seq<Step>, result: seq<Step>) returns (members: seq<string>)
    ensures members == Unlisted(NamesOf(steps), Elements(NamesOf(result)))
  {
    members := [];
    NamesAreElements(result);
    var processed := NameSet(result);
    ghost var all := NamesOf(steps);
    for i := 0 to |steps|
      invariant members == Unlisted(all[..i], processed)
    {
      UnlistedNext(all, processed, i);
      if steps[i].name !in processed {
        members := members + [steps[i].name];
      }
    }
    assert all[..|steps|] == all;
  }

  lemma UnlistedNext<N>(all: seq<N>, done: set<N>, i: nat)
    requires i < |all|
    ensures Unlisted(all[..i + 1], done) == if all[i] in done then Unlisted(all[..i], done) else Unlisted(all[..i], done) + [all[i]]
  {
    assert all[..i + 1][..i] == all[..i];
  }

  lemma NamesAreElements(steps: seq<Step>)
    ensures Elements(NamesOf(steps)) == NameSet(steps)
  {
    forall n | n in NameSet(steps) ensures n in NamesOf(steps) {
      var i :| 0 <= i < |steps| && steps[i].name == n;
      assert NamesOf(steps)[i] == n;
    }
  }

  // --- rounds ---

  /** A pass that leaves something out, and the edge that is dropped after it. */
  ghost predicate BreaksAfter<N(!new)>(all: seq<N>, index: map<N, int>, adj: Adjacency<N>, adj': Adjacency<N>,
                                       order: seq<N>, from: N, to: N)
    requires Elements(all) <= index.Keys
  {
    && IsPassOf(all, adj, index, order) && Elements(Unlisted(all, Elements(order))) <= index.Keys
    && IsBreak(adj, adj', Unlisted(all, Elements(order)), index, from, to)
  }

  ghost predicate IsRound<N(!new)>(all: seq<N>, index: map<N, int>, adj: Adjacency<N>, adj': Adjacency<N>)
    requires Elements(all) <= index.Keys
  {
    exists order, from, to :: BreaksAfter(all, index, adj, adj', order, from, to)
  }

  /** One round: a pass, and if it leaves something out, one edge less for the next one. */
  method KahnRound(steps: seq<Step>, adj: Adjacency<string>, deg: Degrees<string>, index: map<string, int>)
    returns (result: seq<Step>, cycle: seq<string>, adj': Adjacency<string>, deg': Degrees<string>)
    requires Prepared(steps, adj, deg, index)
    ensures Elements(NamesOf(steps)) <= index.Keys && IsPassOf(NamesOf(steps), adj, index, NamesOf(result))
    ensures FromIndex(steps, index, result)
    ensures cycle == Unlisted(NamesOf(steps), Elements(NamesOf(result)))
    ensures cycle == [] ==> adj' == adj && deg' == deg
    ensures cycle != [] ==> IsRound(NamesOf(steps), index, adj, adj') && IsGraph(NameSet(steps), adj', deg')
  {
    result := RunKahn(steps, adj, deg, index);
    cycle, adj', deg' := [], adj, deg;
    if |result| == |steps| {
      CompleteLeavesNothing(NamesOf(steps), adj, index, NamesOf(result));
      return;
    }
    cycle := LeftOut(steps, result);
    NamesAreElements(steps);
    if cycle != [] {
      StuckMembers(NamesOf(steps), adj, index, NamesOf(result), cycle);
      ghost var from, to;
      adj', deg', from, to := BreakCycle(NameSet(steps), adj, deg, index, cycle);
      assert BreaksAfter(NamesOf(steps), index, adj, adj', NamesOf(result), from, to);
    }
  }

  lemma CompleteLeavesNothing<N(!new)>(all: seq<N>, adj: Adjacency<N>, index: map<N, int>, order: seq<N>)
    requires Elements(all) <= index.Keys && IsPassOf(all, adj, index, order) && |order| == |all|
    ensures Unlisted(all, Elements(order)) == []
  {
    CompleteIff(all, adj, index, order);
    NothingUnlisted(all, Elements(order));
  }

  lemma NothingUnlisted<N>(all: seq<N>, done: set<N>)
    ensures Unlisted(all, done) == [] <==> Elements(all) <= done
  {
    UnlistedElements(all, done);
    var u := Unlisted(all, done);
    if u != [] { assert u[0] in Elements(u); }
    if u == [] { forall x | x in Elements(all) ensures x in done { assert x !in Elements(u); } }
  }

  lemma StuckMembers<N(!new)>(all: seq<N>, adj: Adjacency<N>, index: map<N, int>, order: seq<N>, members: seq<N>)
    requires Elements(all) <= index.Keys && IsPassOf(all, adj, index, order) && members == Unlisted(all, Elements(order))
    ensures Elements(members) <= Elements(all)
    ensures forall n {:trigger HasPredecessorIn(adj, members, n)} | n in members :: HasPredecessorIn(adj, members, n)
  {
    UnlistedElements(all, Elements(order));
    forall n | n in members ensures HasPredecessorIn(adj, members, n) {
      assert n in Elements(members);
      var m := StuckHasStuck(all, adj, index, order, n);
      assert m in Elements(members);
    }
  }

  // --- the whole sort ---

  /** The graphs of all rounds, and what the last pass lists: nothing is left to break. */
  ghost predicate IsSort<N(!new)>(all: seq<N>, index: map<N, int>, graphs: seq<Adjacency<N>>, order: seq<N>)
    requires Elements(all) <= index.Keys
  {
    && graphs != []
    && AreRounds(all, index, graphs)
    && IsPassOf(all, graphs[|graphs| - 1], index, order) && Elements(all) <= Elements(order)
  }

  ghost predicate AreRounds<N(!new)>(all: seq<N>, index: map<N, int>, graphs: seq<Adjacency<N>>)
    requires Elements(all) <= index.Keys
  {
    forall i: nat {:trigger RoundAt(all, index, graphs, i)} | i + 1 < |graphs| :: RoundAt(all, index, graphs, i)
  }

  ghost predicate RoundAt<N(!new)>(all: seq<N>, index: map<N, int>, graphs: seq<Adjacency<N>>, i: nat)
    requires Elements(all) <= index.Keys && i + 1 < |graphs|
  {
    IsRound(all, index, graphs[i], graphs[i + 1])
  }

  /** What a sort keeps of the original graph, and the warnings that account for the rest. */
  ghost predicate Accounted<N(!new)>(names: set<N>, adj: Adjacency<N>, kept: Adjacency<N>, warnings: seq<seq<N>>) {
    && Edges(names, kept) <= Edges(names, adj)
    && |Edges(names, adj)| == |Edges(names, kept)| + |warnings|
    && (warnings == [] ==> kept == adj)
    && (warnings != [] ==> !Acyclic(names, adj))
  }

  lemma StuckIsCyclic<N(!new)>(all: seq<N>, adj: Adjacency<N>, index: map<N, int>, order: seq<N>)
    requires Elements(all) <= index.Keys && IsPassOf(all, adj, index, order) && !(Elements(all) <= Elements(order))
    ensures !Acyclic(Elements(all), adj)
  {
    if Acyclic(Elements(all), adj) {
      var some :| IsTopological(Elements(all), adj, some);
      AcyclicListsAll(all, adj, index, order, some);
      assert false;
    }
  }

  lemma OneMoreRound<N(!new)>(all: seq<N>, adj: Adjacency<N>, deg: Degrees<N>, kept: Adjacency<N>, adj': Adjacency<N>,
                              index: map<N, int>, warnings: seq<seq<N>>, cycle: seq<N>)
    requires Elements(all) <= index.Keys && IsGraph(Elements(all), kept, deg)
    requires Accounted(Elements(all), adj, kept, warnings) && IsRound(all, index, kept, adj')
    ensures Accounted(Elements(all), adj, adj', warnings + [cycle])
    ensures |Edges(Elements(all), adj')| < |Edges(Elements(all), kept)|
  {
    var order, from, to :| BreaksAfter(all, index, kept, adj', order, from, to);
    var members := Unlisted(all, Elements(order));
    UnlistedElements(all, Elements(order));
    BreakDropsEdge(Elements(all), kept, adj', deg, members, index, from, to);
    assert to in Elements(members);
    if warnings == [] { StuckIsCyclic(all, kept, index, order); }
  }

  /** What a sort has done so far: rounds that each dropped an edge, and the graph that is left. */
  ghost predicate SoFar<N(!new)>(all: seq<N>, index: map<N, int>, adj: Adjacency<N>, graphs: seq<Adjacency<N>>,
                                 kept: Adjacency<N>, deg: Degrees<N>, warnings: seq<seq<N>>)
    requires Elements(all) <= index.Keys
  {
    && graphs != [] && graphs[0] == adj && graphs[|graphs| - 1] == kept && IsGraph(Elements(all), kept, deg)
    && AreRounds(all, index, graphs)
    && Accounted(Elements(all), adj, kept, warnings)
  }

  lemma SortGrows<N(!new)>(all: seq<N>, index: map<N, int>, adj: Adjacency<N>, graphs: seq<Adjacency<N>>, kept: Adjacency<N>,
                           deg: Degrees<N>, warnings: seq<seq<N>>, adj': Adjacency<N>, deg': Degrees<N>, cycle: seq<N>)
    requires Elements(all) <= index.Keys && SoFar(all, index, adj, graphs, kept, deg, warnings)
    requires IsRound(all, index, kept, adj') && IsGraph(Elements(all), adj', deg')
    ensures SoFar(all, index, adj, graphs + [adj'], adj', deg', warnings + [cycle])
    ensures |Edges(Elements(all), adj')| < |Edges(Elements(all), kept)|
  {
    OneMoreRound(all, adj, deg, kept, adj', index, warnings, cycle);
    RoundsGrow(all, index, graphs, adj');
  }

  lemma RoundsGrow<N(!new)>(all: seq<N>, index: map<N, int>, graphs: seq<Adjacency<N>>, adj': Adjacency<N>)
    requires Elements(all) <= index.Keys && AreRounds(all, index, graphs)
    requires graphs != [] && IsRound(all, index, graphs[|graphs| - 1], adj')
    ensures AreRounds(all, index, graphs + [adj'])
  {
    var longer := graphs + [adj'];
    forall i: nat | i + 1 < |longer| ensures RoundAt(all, index, longer, i) {
      if i + 1 < |graphs| { assert RoundAt(all, index, graphs, i); }
    }
  }

  /** The last round: nothing is left to break, and the pass is complete exactly if every repeated name
      has no prerequisites. */
  lemma SortEnds<N(!new)>(all: seq<N>, index: map<N, int>, adj: Adjacency<N>, graphs: seq<Adjacency<N>>, kept: Adjacency<N>,
                          deg: Degrees<N>, warnings: seq<seq<N>>, order: seq<N>)
    requires Elements(all) <= index.Keys && SoFar(all, index, adj, graphs, kept, deg, warnings)
    requires IsPassOf(all, kept, index, order)
    ensures |order| == |all| ==> Unlisted(all, Elements(order)) == []
    ensures Unlisted(all, Elements(order)) == [] ==>
      IsSort(all, index, graphs, order) && (|order| == |all| <==> RepeatedAreRoots(all, kept))
  {
    NothingUnlisted(all, Elements(order));
    CompleteIff(all, kept, index, order);
    ListedFits(all, kept, index, order);
  }

  datatype Progress = Stops | StandsStill | GoesOn

  /** A round of the sort, and whether another one follows: not after a complete pass; and if nothing
      is stuck though the pass is short, all further rounds are the same as this one. */
  method NextRound(steps: seq<Step>, index: map<string, int>, ghost adj: Adjacency<string>,
                   ghost graphs: seq<Adjacency<string>>, kept: Adjacency<string>, deg: Degrees<string>, ghost warnings: seq<seq<string>>)
    returns (progress: Progress, result: seq<Step>, cycle: seq<string>, adj': Adjacency<string>, deg': Degrees<string>)
    requires IsIndex(steps, index) && Elements(NamesOf(steps)) <= index.Keys
    requires SoFar(NamesOf(steps), index, adj, graphs, kept, deg, warnings)
    ensures FromIndex(steps, index, result)
    ensures progress.GoesOn? ==>
      && SoFar(NamesOf(steps), index, adj, graphs + [adj'], adj', deg', warnings + [cycle])
      && |Edges(Elements(NamesOf(steps)), adj')| < |Edges(Elements(NamesOf(steps)), kept)|
    ensures !progress.GoesOn? ==>
      && IsSort(NamesOf(steps), index, graphs, NamesOf(result))
      && (progress.Stops? <==> |result| == |steps|) && (progress.Stops? <==> RepeatedAreRoots(NamesOf(steps), kept))
  {
    NamesAreElements(steps);
    result, cycle, adj', deg' := KahnRound(steps, kept, deg, index);
    SortEnds(NamesOf(steps), index, adj, graphs, kept, deg, warnings, NamesOf(result));
    progress := if |result| == |steps| then Stops else if cycle == [] then StandsStill else GoesOn;
    if progress.GoesOn? {
      SortGrows(NamesOf(steps), index, adj, graphs, kept, deg, warnings, adj', deg', cycle);
    }
  }

  /** Kahn's algorithm with cycle breaking.  One warning, naming the stuck steps, is issued for each
      edge that is dropped.  stops: the loop ends with this result; otherwise it never does. */
  method KahnSort(steps: seq<Step>, adj: Adjacency<string>, deg: Degrees<string>, index: map<string, int>)
    returns (stops: bool, result: seq<Step>, warnings: seq<seq<string>>, ghost graphs: seq<Adjacency<string>>)
    requires Prepared(steps, adj, deg, index)
    ensures Elements(NamesOf(steps)) <= index.Keys && FromIndex(steps, index, result)
    ensures IsSort(NamesOf(steps), index, graphs, NamesOf(result)) && graphs[0] == adj
    ensures stops <==> |result| == |steps|
    ensures stops <==> RepeatedAreRoots(NamesOf(steps), graphs[|graphs| - 1])
    ensures Accounted(Elements(NamesOf(steps)), adj, graphs[|graphs| - 1], warnings)
  {
    NamesAreElements(steps);
    graphs, warnings := [adj], [];
    var adjCopy, d := adj, deg;
    while true
      invariant SoFar(NamesOf(steps), index, adj, graphs, adjCopy, d, warnings)
      decreases |Edges(Elements(NamesOf(steps)), adjCopy)|
    {
      var progress, cycle, adj', d';
      progress, result, cycle, adj', d' := NextRound(steps, index, adj, graphs, adjCopy, d, warnings);
      if !progress.GoesOn? {
        return progress.Stops?, result, warnings, graphs;
      }
      warnings, graphs := warnings + [cycle], graphs + [adj'];
      adjCopy, d := adj', d';
    }
  }
}
