/** Which dependencies the breaking of cycles drops, and that a sort has one outcome. */
module CycleBreaking {
  import opened StepGraph
  import opened KahnPass
  import opened Sequencer

  // --- one outcome ---

  lemma FirstIntoIsUnique<N(!new)>(adj: Adjacency<N>, adj': Adjacency<N>, members: seq<N>, x: N, y: N, to: N)
    requires SameEdges(adj, adj') && IsFirstInto(adj, members, x, to) && IsFirstInto(adj', members, y, to)
    ensures x == y
  {
    var i :| 0 <= i < |members| && FirstIntoAt(adj, members, x, to, i);
    var j :| 0 <= j < |members| && FirstIntoAt(adj', members, y, to, j);
    assert to in Out(adj', x) && to in Out(adj, y);
  }

  lemma BreakIsUnique<N(!new)>(names: set<N>, adj: Adjacency<N>, adj1: Adjacency<N>, adj': Adjacency<N>, adj1': Adjacency<N>,
                               deg: Degrees<N>, deg': Degrees<N>, members: seq<N>, index: map<N, int>, f: N, t: N, f': N, t': N)
    requires IsGraph(names, adj, deg) && IsGraph(names, adj', deg') && SameEdges(adj, adj')
    requires Elements(members) <= names <= index.Keys && Injective(names, index)
    requires IsBreak(adj, adj1, members, index, f, t) && IsBreak(adj', adj1', members, index, f', t')
    ensures f == f' && t == t' && SameEdges(adj1, adj1')
  {
    assert t in Elements(members) && t' in Elements(members);
    FirstIntoIsUnique(adj, adj', members, f, f', t);
    forall m, n ensures n in Out(adj1, m) <==> n in Out(adj1', m) {
      OutAfterRemoval(adj, f, t, m, n);
      OutAfterRemoval(adj', f', t', m, n);
    }
  }

  lemma RoundIsUnique<N(!new)>(all: seq<N>, index: map<N, int>, adj: Adjacency<N>, adj1: Adjacency<N>, deg: Degrees<N>,
                               adj': Adjacency<N>, adj1': Adjacency<N>, deg': Degrees<N>)
    returns (deg1: Degrees<N>, deg1': Degrees<N>)
    requires Elements(all) <= index.Keys && Injective(Elements(all), index) && SameEdges(adj, adj')
    requires IsGraph(Elements(all), adj, deg) && IsGraph(Elements(all), adj', deg')
    requires IsRound(all, index, adj, adj1) && IsRound(all, index, adj', adj1')
    ensures SameEdges(adj1, adj1') && IsGraph(Elements(all), adj1, deg1) && IsGraph(Elements(all), adj1', deg1')
  {
    var order, f, t :| BreaksAfter(all, index, adj, adj1, order, f, t);
    var order', f', t' :| BreaksAfter(all, index, adj', adj1', order', f', t');
    PassIsUnique(all, adj, adj', index, order, order');
    var members := Unlisted(all, Elements(order));
    UnlistedElements(all, Elements(order));
    BreakIsUnique(Elements(all), adj, adj1, adj', adj1', deg, deg', members, index, f, t, f', t');
    BreakDropsEdge(Elements(all), adj, adj1, deg, members, index, f, t);
    BreakDropsEdge(Elements(all), adj', adj1', deg', members, index, f', t');
    deg1, deg1' := deg[t := deg[t] - 1], deg'[t' := deg'[t'] - 1];
  }

  /** A graph that has a round is not one that a sort ends with. */
  lemma RoundOrEnd<N(!new)>(all: seq<N>, index: map<N, int>, adj: Adjacency<N>, adj1: Adjacency<N>, adj': Adjacency<N>, order: seq<N>)
    requires Elements(all) <= index.Keys && Injective(Elements(all), index) && SameEdges(adj, adj')
    requires IsRound(all, index, adj, adj1) && IsPassOf(all, adj', index, order)
    ensures !(Elements(all) <= Elements(order))
  {
    var order1, f, t :| BreaksAfter(all, index, adj, adj1, order1, f, t);
    PassIsUnique(all, adj, adj', index, order1, order);
    NothingUnlisted(all, Elements(order));
  }

  /** If the last graph of a sort has a pass that is short, it has no other: the loop goes on, finds
      nothing to break, and never changes the graph again. */
  lemma StandsStill<N(!new)>(all: seq<N>, index: map<N, int>, graphs: seq<Adjacency<N>>, last: Adjacency<N>, order: seq<N>)
    requires Elements(all) <= index.Keys && Injective(Elements(all), index) && IsSort(all, index, graphs, order)
    requires last == graphs[|graphs| - 1] && |order| != |all|
    ensures forall x | IsPassOf(all, last, index, x) :: |x| < |all| && Unlisted(all, Elements(x)) == []
    ensures forall adj' :: !IsRound(all, index, last, adj')
  {
    forall x | IsPassOf(all, last, index, x) ensures |x| < |all| && Unlisted(all, Elements(x)) == [] {
      PassIsUnique(all, last, last, index, x, order);
      ListedFits(all, last, index, x);
      NothingUnlisted(all, Elements(x));
    }
    forall adj' ensures !IsRound(all, index, last, adj') {
      if IsRound(all, index, last, adj') { RoundOrEnd(all, index, last, adj', last, order); assert false; }
    }
  }

  lemma SortWithoutFirst<N(!new)>(all: seq<N>, index: map<N, int>, graphs: seq<Adjacency<N>>, order: seq<N>)
    requires Elements(all) <= index.Keys && IsSort(all, index, graphs, order) && |graphs| > 1
    ensures IsRound(all, index, graphs[0], graphs[1]) && IsSort(all, index, graphs[1..], order)
  {
    assert RoundAt(all, index, graphs, 0);
    forall i: nat | i + 1 < |graphs[1..]| ensures RoundAt(all, index, graphs[1..], i) {
      assert RoundAt(all, index, graphs, i + 1);
    }
  }

  /** What a sort lists in the end depends on nothing but names, positions and edges. */
  lemma {:induction false} SortIsUnique<N(!new)>(all: seq<N>, index: map<N, int>, gs: seq<Adjacency<N>>, x: seq<N>, deg: Degrees<N>,
                                                 hs: seq<Adjacency<N>>, y: seq<N>, deg': Degrees<N>)
    requires Elements(all) <= index.Keys && Injective(Elements(all), index)
    requires IsSort(all, index, gs, x) && IsSort(all, index, hs, y) && SameEdges(gs[0], hs[0])
    requires IsGraph(Elements(all), gs[0], deg) && IsGraph(Elements(all), hs[0], deg')
    ensures x == y
    decreases |gs|
  {
    if |gs| > 1 { SortWithoutFirst(all, index, gs, x); }
    if |hs| > 1 { SortWithoutFirst(all, index, hs, y); }
    if |gs| > 1 && |hs| > 1 {
      var d, d' := RoundIsUnique(all, index, gs[0], gs[1], deg, hs[0], hs[1], deg');
      SortIsUnique(all, index, gs[1..], x, d, hs[1..], y, d');
    } else if |gs| > 1 {
      RoundOrEnd(all, index, gs[0], gs[1], hs[0], y);
    } else if |hs| > 1 {
      SameEdgesBack(gs[0], hs[0]);
      RoundOrEnd(all, index, hs[0], hs[1], gs[0], x);
    } else {
      PassIsUnique(all, gs[0], hs[0], index, x, y);
    }
  }

  lemma SameEdgesBack<N(!new)>(adj: Adjacency<N>, adj': Adjacency<N>)
    requires SameEdges(adj, adj')
    ensures SameEdges(adj', adj)
  {
  }

  // --- cycles ---

  ghost predicate IsWalk<N(!new)>(adj: Adjacency<N>, walk: seq<N>) {
    |walk| > 0 && forall k | 0 <= k < |walk| - 1 :: walk[k + 1] in Out(adj, walk[k])
  }

  ghost predicate Reaches<N(!new)>(adj: Adjacency<N>, x: N, y: N) {
    exists walk :: IsWalk(adj, walk) && walk[0] == x && walk[|walk| - 1] == y
  }

  /** A closed walk that uses the edge. */
  ghost predicate CycleThrough<N(!new)>(adj: Adjacency<N>, walk: seq<N>, from: N, to: N) {
    && IsWalk(adj, walk) && |walk| > 1 && walk[0] == walk[|walk| - 1]
    && exists k :: 0 <= k < |walk| - 1 && walk[k] == from && walk[k + 1] == to
  }

  ghost predicate OnCycle<N(!new)>(adj: Adjacency<N>, from: N, to: N) {
    exists walk :: CycleThrough(adj, walk, from, to)
  }

  lemma OnCycleIff<N(!new)>(adj: Adjacency<N>, from: N, to: N)
    requires to in Out(adj, from)
    ensures OnCycle(adj, from, to) <==> Reaches(adj, to, from)
  {
    if OnCycle(adj, from, to) {
      var walk :| CycleThrough(adj, walk, from, to);
      var k :| 0 <= k < |walk| - 1 && walk[k] == from && walk[k + 1] == to;
      Rotated(adj, walk, k);
    }
    if walk :| IsWalk(adj, walk) && walk[0] == to && walk[|walk| - 1] == from {
      var cycle := [from] + walk;
      assert cycle[0] == from && cycle[1] == to;
      assert CycleThrough(adj, cycle, from, to);
    }
  }

  lemma TurnedStep<N>(walk: seq<N>, k: nat, i: nat) returns (j: nat)
    requires k < |walk| - 1 && walk[0] == walk[|walk| - 1] && i < |walk| - 2
    ensures var turned := walk[k + 1..] + walk[1..k + 1];
      j < |walk| - 1 && i + 1 < |turned| && turned[i] == walk[j] && turned[i + 1] == walk[j + 1]
  {
    j := if k + 1 + i < |walk| - 1 then k + 1 + i else k + 1 + i - (|walk| - 1);
  }

  lemma Rotated<N(!new)>(adj: Adjacency<N>, walk: seq<N>, k: nat)
    requires IsWalk(adj, walk) && k < |walk| - 1 && walk[0] == walk[|walk| - 1]
    ensures Reaches(adj, walk[k + 1], walk[k])
  {
    var turned := walk[k + 1..] + walk[1..k + 1];
    assert |turned| == |walk| - 1 && turned[0] == walk[k + 1];
    assert turned[|turned| - 1] == walk[k];
    forall i | 0 <= i < |turned| - 1 ensures turned[i + 1] in Out(adj, turned[i]) {
      var j := TurnedStep(walk, k, i);
      assert walk[j + 1] in Out(adj, walk[j]);
    }
    assert IsWalk(adj, turned);
  }

  /** The dropped edge leads from the first stuck node that has such an edge into the stuck node of
      highest position.  It is on a cycle if and only if that node reaches the first; so it is on none
      if the node of highest position merely depends on a cycle. */
  lemma DroppedEdgeIsOnCycleIff<N(!new)>(all: seq<N>, index: map<N, int>, adj: Adjacency<N>, adj': Adjacency<N>,
                                         order: seq<N>, from: N, to: N)
    requires Elements(all) <= index.Keys && BreaksAfter(all, index, adj, adj', order, from, to)
    ensures to in Out(adj, from) && from in all && to in all && from !in order && to !in order
    ensures forall n | n in all && n !in order :: index[n] <= index[to]
    ensures OnCycle(adj, from, to) <==> Reaches(adj, to, from)
  {
    var members := Unlisted(all, Elements(order));
    UnlistedElements(all, Elements(order));
    assert from in Elements(members) && to in Elements(members);
    forall n | n in all && n !in order ensures index[n] <= index[to] { assert n in Elements(members); }
    OnCycleIff(adj, from, to);
  }

  // --- a dependency on no cycle that is overtaken ---

  /** a and b depend on each other, b also on z, and c on b. */
  ghost predicate Overtakes<N(!new)>(adj: Adjacency<N>, a: N, b: N, c: N, z: N) {
    && a != b && a != c && a != z && b != c && b != z && c != z
    && forall m, n :: n in Out(adj, m) <==> (m == b && n == a) || (m == a && n == b) || (m == z && n == b) || (m == b && n == c)
  }

  lemma OnceEach<N(!new)>(a: N, b: N, c: N, z: N)
    requires a != b && a != c && a != z && b != c && b != z && c != z
    ensures forall n | n in [a, b, c, z] :: multiset([a, b, c, z])[n] == 1
    ensures Elements([a, b, c, z]) == {a, b, c, z}
  {
  }

  /** Four names in this order. */
  ghost predicate InOrder<N(!new)>(all: seq<N>, index: map<N, int>, a: N, b: N, c: N, z: N) {
    && a != b && a != c && a != z && b != c && b != z && c != z
    && all == [a, b, c, z] && Elements(all) <= index.Keys
    && a in index && b in index && c in index && z in index && index[a] < index[b] < index[c] < index[z]
  }

  lemma LowestNext<N(!new)>(names: set<N>, adj: Adjacency<N>, index: map<N, int>, order: seq<N>, ready: set<N>, n: N)
    requires names <= index.Keys && LowestFirst(names, adj, index, order)
    requires ready == Ready(names, adj, Elements(order)) && n in ready
    requires forall m | m in ready :: m in index && index[n] <= index[m]
    ensures LowestFirst(names, adj, index, order + [n])
  {
    var longer := order + [n];
    forall k | 0 <= k < |longer|
      ensures longer[k] in Ready(names, adj, Elements(longer[..k]))
      ensures forall m | m in Ready(names, adj, Elements(longer[..k])) :: index[longer[k]] <= index[m]
    {
      assert longer[..k] == order[..k];
      if k == |order| { assert order[..k] == order; }
    }
  }

  lemma ReadyIs<N(!new)>(names: set<N>, adj: Adjacency<N>, done: seq<N>, ready: set<N>)
    requires forall n | n in names && n !in done :: n in ready <==> Preds(names, adj, n) <= Elements(done)
    requires ready <= names - Elements(done)
    ensures Ready(names, adj, Elements(done)) == ready
  {
  }

  /** The predecessors in the three graphs of the rounds. */
  lemma PredsOfFour<N(!new)>(all: seq<N>, index: map<N, int>, adj: Adjacency<N>, a: N, b: N, c: N, z: N)
    requires InOrder(all, index, a, b, c, z) && adj.Keys == {a, b, z}
    requires adj[z] == [b] && (adj[a] == [b] || adj[a] == []) && (adj[b] == [a, c] || adj[b] == [a])
    ensures Preds(Elements(all), adj, z) == {} && Preds(Elements(all), adj, a) == {b}
    ensures Preds(Elements(all), adj, b) == if adj[a] == [b] then {a, z} else {z}
    ensures Preds(Elements(all), adj, c) == if adj[b] == [a, c] then {b} else {}
  {
    OnceEach(a, b, c, z);
    assert c in [a, c] && c !in [a] && b in [b];
  }

  /** The first pass lists z only. */
  lemma FirstPass<N(!new)>(all: seq<N>, index: map<N, int>, adj: Adjacency<N>, a: N, b: N, c: N, z: N)
    requires InOrder(all, index, a, b, c, z) && adj == map[b := [a, c], a := [b], z := [b]]
    ensures IsPassOf(all, adj, index, [z])
  {
    OnceEach(a, b, c, z);
    PredsOfFour(all, index, adj, a, b, c, z);
    ReadyIs(Elements(all), adj, [], {z});
    ReadyIs(Elements(all), adj, [z], {});
    LowestNext(Elements(all), adj, index, [], {z}, z);
    assert [] + [z] == [z];
    IsPassOfDistinct(all, adj, index, [z]);
  }

  lemma FirstTwo<N(!new)>(all: seq<N>, index: map<N, int>, adj: Adjacency<N>, a: N, b: N, c: N, z: N)
    requires InOrder(all, index, a, b, c, z) && Elements(all) == {a, b, c, z}
    requires Preds(Elements(all), adj, z) == {} && Preds(Elements(all), adj, c) == {}
    requires Preds(Elements(all), adj, a) == {b} && z in Preds(Elements(all), adj, b)
    ensures LowestFirst(Elements(all), adj, index, [c, z])
  {
    ReadyIs(Elements(all), adj, [], {c, z});
    LowestNext(Elements(all), adj, index, [], {c, z}, c);
    assert [] + [c] == [c] && [c] + [z] == [c, z];
    ReadyIs(Elements(all), adj, [c], {z});
    LowestNext(Elements(all), adj, index, [c], {z}, z);
  }

  /** The second pass lists c and z. */
  lemma SecondPass<N(!new)>(all: seq<N>, index: map<N, int>, adj: Adjacency<N>, a: N, b: N, c: N, z: N)
    requires InOrder(all, index, a, b, c, z) && adj == map[b := [a], a := [b], z := [b]]
    ensures IsPassOf(all, adj, index, [c, z])
  {
    OnceEach(a, b, c, z);
    PredsOfFour(all, index, adj, a, b, c, z);
    FirstTwo(all, index, adj, a, b, c, z);
    ReadyIs(Elements(all), adj, [c, z], {});
    IsPassOfDistinct(all, adj, index, [c, z]);
  }

  /** The third lists all four, b after c. */
  lemma LastPass<N(!new)>(all: seq<N>, index: map<N, int>, adj: Adjacency<N>, a: N, b: N, c: N, z: N)
    requires InOrder(all, index, a, b, c, z) && adj == map[b := [a], a := [], z := [b]]
    ensures IsPassOf(all, adj, index, [c, z, b, a])
  {
    OnceEach(a, b, c, z);
    PredsOfFour(all, index, adj, a, b, c, z);
    LastPassIsLowest(all, index, adj, a, b, c, z);
    ReadyIs(Elements(all), adj, [c, z, b, a], {});
    IsPassOfDistinct(all, adj, index, [c, z, b, a]);
  }

  lemma LastPassIsLowest<N(!new)>(all: seq<N>, index: map<N, int>, adj: Adjacency<N>, a: N, b: N, c: N, z: N)
    requires InOrder(all, index, a, b, c, z) && Elements(all) == {a, b, c, z}
    requires Preds(Elements(all), adj, z) == {} && Preds(Elements(all), adj, a) == {b}
    requires Preds(Elements(all), adj, b) == {z} && Preds(Elements(all), adj, c) == {}
    ensures LowestFirst(Elements(all), adj, index, [c, z, b, a])
  {
    FirstTwo(all, index, adj, a, b, c, z);
    LastTwo(all, index, adj, a, b, c, z);
  }

  lemma LastTwo<N(!new)>(all: seq<N>, index: map<N, int>, adj: Adjacency<N>, a: N, b: N, c: N, z: N)
    requires InOrder(all, index, a, b, c, z) && Elements(all) == {a, b, c, z}
    requires Preds(Elements(all), adj, a) == {b} && Preds(Elements(all), adj, b) == {z}
    requires LowestFirst(Elements(all), adj, index, [c, z])
    ensures LowestFirst(Elements(all), adj, index, [c, z, b, a])
  {
    ReadyIs(Elements(all), adj, [c, z], {b});
    LowestNext(Elements(all), adj, index, [c, z], {b}, b);
    assert [c, z] + [b] == [c, z, b] && [c, z, b] + [a] == [c, z, b, a];
    ReadyIs(Elements(all), adj, [c, z, b], {a});
    LowestNext(Elements(all), adj, index, [c, z, b], {a}, a);
  }

  lemma LeavesOut<N(!new)>(a: N, b: N, c: N, z: N, done: set<N>)
    requires a !in done && b !in done && z in done
    ensures Unlisted([a, b, c, z], done) == if c in done then [a, b] else [a, b, c]
  {
    assert [a, b, c, z][..3] == [a, b, c] && [a, b, c][..2] == [a, b] && [a, b][..1] == [a] && [a][..0] == [];
    assert Unlisted([a], done) == [a];
    assert Unlisted([a, b], done) == [a, b];
    assert Unlisted([a, b, c], done) == if c in done then [a, b] else [a, b, c];
  }

  /** b -> c is dropped after the first pass. */
  lemma FirstRound<N(!new)>(all: seq<N>, index: map<N, int>, adj: Adjacency<N>, adj1: Adjacency<N>, a: N, b: N, c: N, z: N)
    requires InOrder(all, index, a, b, c, z)
    requires adj == map[b := [a, c], a := [b], z := [b]] && adj1 == map[b := [a], a := [b], z := [b]]
    ensures IsRound(all, index, adj, adj1)
  {
    FirstPass(all, index, adj, a, b, c, z);
    LeavesOut(a, b, c, z, Elements([z]));
    assert Without([a, c], c) == [a] by { assert [a, c][1..] == [c]; }
    var members := [a, b, c];
    assert Elements(members) == {a, b, c};
    assert FirstIntoAt(adj, members, b, c, 1);
    assert BreaksAfter(all, index, adj, adj1, [z], b, c);
  }

  /** a -> b is dropped after the second. */
  lemma SecondRound<N(!new)>(all: seq<N>, index: map<N, int>, adj: Adjacency<N>, adj1: Adjacency<N>, a: N, b: N, c: N, z: N)
    requires InOrder(all, index, a, b, c, z)
    requires adj == map[b := [a], a := [b], z := [b]] && adj1 == map[b := [a], a := [], z := [b]]
    ensures IsRound(all, index, adj, adj1)
  {
    SecondPass(all, index, adj, a, b, c, z);
    LeavesOut(a, b, c, z, Elements([c, z]));
    assert Without([b], b) == [];
    var members := [a, b];
    assert Elements(members) == {a, b};
    assert FirstIntoAt(adj, members, a, b, 0);
    assert BreaksAfter(all, index, adj, adj1, [c, z], a, b);
  }

  /** The run of the sort, from one form of the graph. */
  lemma SortOvertakes<N(!new)>(all: seq<N>, index: map<N, int>, a: N, b: N, c: N, z: N)
    returns (graphs: seq<Adjacency<N>>, deg: Degrees<N>)
    requires InOrder(all, index, a, b, c, z)
    ensures IsSort(all, index, graphs, [c, z, b, a]) && IsGraph(Elements(all), graphs[0], deg)
    ensures graphs[0] == map[b := [a, c], a := [b], z := [b]]
  {
    var adj, adj1 := map[b := [a, c], a := [b], z := [b]], map[b := [a], a := [b], z := [b]];
    var adj2 := map[b := [a], a := [], z := [b]];
    FirstRound(all, index, adj, adj1, a, b, c, z);
    SecondRound(all, index, adj1, adj2, a, b, c, z);
    LastPass(all, index, adj2, a, b, c, z);
    graphs := [adj, adj1, adj2];
    TwoRounds(all, index, adj, adj1, adj2);
    deg := OvertakingGraph(all, adj, a, b, c, z);
    SameFour(a, b, c, z);
  }

  lemma TwoRounds<N(!new)>(all: seq<N>, index: map<N, int>, adj: Adjacency<N>, adj1: Adjacency<N>, adj2: Adjacency<N>)
    requires Elements(all) <= index.Keys && IsRound(all, index, adj, adj1) && IsRound(all, index, adj1, adj2)
    ensures AreRounds(all, index, [adj, adj1, adj2])
  {
    var graphs := [adj, adj1, adj2];
    forall i: nat | i + 1 < |graphs| ensures RoundAt(all, index, graphs, i) {
      assert i == 0 || i == 1;
    }
  }

  lemma SameFour<N(!new)>(a: N, b: N, c: N, z: N)
    ensures Elements([a, b, c, z]) == Elements([c, z, b, a])
  {
  }

  lemma FourPositions<N(!new)>(all: seq<N>, index: map<N, int>, a: N, b: N, c: N, z: N)
    requires InOrder(all, index, a, b, c, z)
    ensures Injective(Elements(all), index)
  {
    OnceEach(a, b, c, z);
  }

  /** c comes out before b, on which it depends, though that dependency is on no cycle. */
  lemma DependencyIsOvertaken<N(!new)>(all: seq<N>, index: map<N, int>, graphs: seq<Adjacency<N>>, deg: Degrees<N>,
                                       order: seq<N>, a: N, b: N, c: N, z: N)
    requires InOrder(all, index, a, b, c, z) && IsSort(all, index, graphs, order)
    requires IsGraph(Elements(all), graphs[0], deg) && Overtakes(graphs[0], a, b, c, z)
    ensures order == [c, z, b, a] && c in Out(graphs[0], b) && !OnCycle(graphs[0], b, c)
  {
    var hs, deg' := SortOvertakes(all, index, a, b, c, z);
    OvertakingEdges(graphs[0], hs[0], a, b, c, z);
    FourPositions(all, index, a, b, c, z);
    SortIsUnique(all, index, graphs, order, deg, hs, [c, z, b, a], deg');
  }

  lemma OvertakingEdges<N(!new)>(adj: Adjacency<N>, adj': Adjacency<N>, a: N, b: N, c: N, z: N)
    requires Overtakes(adj, a, b, c, z) && adj' == map[b := [a, c], a := [b], z := [b]]
    ensures SameEdges(adj, adj') && !OnCycle(adj, b, c)
  {
    OnCycleIff(adj, b, c);
    NothingLeaves(adj, c, b);
  }

  lemma NoStep<N(!new)>(adj: Adjacency<N>, walk: seq<N>)
    requires IsWalk(adj, walk) && |walk| > 1
    ensures walk[1] in Out(adj, walk[0])
  {
    assert walk[0 + 1] in Out(adj, walk[0]);
  }

  lemma NothingLeaves<N(!new)>(adj: Adjacency<N>, x: N, y: N)
    requires x != y && forall n :: n !in Out(adj, x)
    ensures !Reaches(adj, x, y)
  {
    forall walk | IsWalk(adj, walk) && walk[0] == x ensures walk[|walk| - 1] != y {
      if |walk| > 1 { NoStep(adj, walk); }
    }
  }

  lemma OvertakingGraph<N(!new)>(all: seq<N>, adj: Adjacency<N>, a: N, b: N, c: N, z: N) returns (deg: Degrees<N>)
    requires a != b && a != c && a != z && b != c && b != z && c != z
    requires all == [a, b, c, z] && adj == map[b := [a, c], a := [b], z := [b]]
    ensures IsGraph(Elements(all), adj, deg)
  {
    var names := Elements(all);
    deg := map n | n in names :: |Preds(names, adj, n)|;
    OnceEach(a, b, c, z);
    assert Elements([a, c]) == {a, c} && Elements([b]) == {b};
  }
}
