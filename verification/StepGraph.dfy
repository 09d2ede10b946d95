/** Playbook steps, the graph of their dependencies, and the orders that respect it. */
module StepGraph {
  datatype Step = Step(name: string, stepType: string, dependsOn: seq<string>, component: string, synthetic: bool)

  type Adjacency<!N> = map<N, seq<N>>     // a -> b: a must come before b
  type Degrees<!N> = map<N, int>

  function NamesOf(steps: seq<Step>): (r: seq<string>)
    ensures |r| == |steps| && forall i | 0 <= i < |r| :: r[i] == steps[i].name
  {
    if steps == [] then [] else NamesOf(steps[..|steps| - 1]) + [steps[|steps| - 1].name]
  }

  function NameSet(steps: seq<Step>): set<string> {
    set s | s in steps :: s.name
  }

  predicate Distinct<T(==)>(s: seq<T>) {
    forall i, j | 0 <= i < j < |s| :: s[i] != s[j]
  }

  predicate DistinctSteps(steps: seq<Step>) {
    forall i, j | 0 <= i < j < |steps| :: steps[i].name != steps[j].name
  }

  function Elements<T>(s: seq<T>): set<T> {
    set x | x in s
  }

  function Out<N(==,!new)>(adj: Adjacency<N>, n: N): seq<N> {
    if n in adj then adj[n] else []
  }

  function Preds<N(==,!new)>(names: set<N>, adj: Adjacency<N>, n: N): set<N> {
    set m | m in names && n in Out(adj, m)
  }

  function Edges<N(==,!new)>(names: set<N>, adj: Adjacency<N>): set<(N, N)> {
    set m, n | m in names && n in Out(adj, m) :: (m, n)
  }

  /** Adjacency lists without repetitions, with the in-degrees that belong to them. */
  predicate IsGraph<N(==,!new)>(names: set<N>, adj: Adjacency<N>, deg: Degrees<N>) {
    && deg.Keys == names
    && (forall m | m in adj :: m in names && Distinct(adj[m]) && Elements(adj[m]) <= names)
    && (forall n | n in names :: deg[n] == |Preds(names, adj, n)|)
  }

  /** The position of each name; of a repeated name, the last. */
  predicate IsIndex(steps: seq<Step>, index: map<string, int>) {
    && index.Keys == NameSet(steps)
    && (forall n | n in index :: 0 <= index[n] < |steps| && steps[index[n]].name == n)
    && (forall i | 0 <= i < |steps| :: steps[i].name in index && i <= index[steps[i].name])
  }

  // --- orders ---

  /** Every predecessor of a listed node is listed before it. */
  predicate Respects<N(==,!new)>(names: set<N>, adj: Adjacency<N>, order: seq<N>) {
    forall k | 0 <= k < |order| :: Preds(names, adj, order[k]) <= Elements(order[..k])
  }

  /** The nodes that may come next. */
  function Ready<N(==,!new)>(names: set<N>, adj: Adjacency<N>, done: set<N>): set<N> {
    set n | n in names && n !in done && Preds(names, adj, n) <= done
  }

  /** Each listed node is, of those that could be next, the one of lowest index. */
  predicate LowestFirst<N(==,!new)>(names: set<N>, adj: Adjacency<N>, index: map<N, int>, order: seq<N>)
    requires names <= index.Keys
  {
    forall k | 0 <= k < |order| ::
      && order[k] in Ready(names, adj, Elements(order[..k]))
      && forall n | n in Ready(names, adj, Elements(order[..k])) :: index[order[k]] <= index[n]
  }

  /** A pass of Kahn's algorithm: lowest first, for as long as anything is ready. */
  predicate IsPass<N(==,!new)>(names: set<N>, adj: Adjacency<N>, index: map<N, int>, order: seq<N>)
    requires names <= index.Keys
  {
    LowestFirst(names, adj, index, order) && Ready(names, adj, Elements(order)) == {}
  }

  /** An order of all nodes that respects every edge. */
  predicate IsTopological<N(==,!new)>(names: set<N>, adj: Adjacency<N>, order: seq<N>) {
    Distinct(order) && Elements(order) == names && Respects(names, adj, order)
  }

  ghost predicate Acyclic<N(!new)>(names: set<N>, adj: Adjacency<N>) {
    exists order :: IsTopological(names, adj, order)
  }

  lemma PassIsOrder<N(!new)>(names: set<N>, adj: Adjacency<N>, index: map<N, int>, order: seq<N>)
    requires names <= index.Keys && LowestFirst(names, adj, index, order)
    ensures Distinct(order) && Elements(order) <= names && Respects(names, adj, order)
  {
    forall i, j | 0 <= i < j < |order| ensures order[i] != order[j] {
      assert order[i] in order[..j];
      assert order[j] in Ready(names, adj, Elements(order[..j]));
    }
    forall n | n in Elements(order) ensures n in names {
      var k :| 0 <= k < |order| && order[k] == n;
      assert order[k] in Ready(names, adj, Elements(order[..k]));
    }
    forall k | 0 <= k < |order| ensures Preds(names, adj, order[k]) <= Elements(order[..k]) {
      assert order[k] in Ready(names, adj, Elements(order[..k]));
    }
  }

  /** a comes before b in the lexicographic order of positions, or they are the same. */
  predicate LexLeq<N(==,!new)>(index: map<N, int>, a: seq<N>, b: seq<N>)
    requires Elements(a) <= index.Keys && Elements(b) <= index.Keys
  {
    a == b || exists k :: 0 <= k < |a| && k < |b| && a[..k] == b[..k] && index[a[k]] < index[b[k]]
  }

  lemma FirstDifference<N(!new)>(a: seq<N>, b: seq<N>) returns (k: nat)
    requires |a| == |b| && a != b
    ensures k < |a| && a[..k] == b[..k] && a[k] != b[k]
  {
    k := 0;
    while a[k] == b[k]
      invariant k < |a| && a[..k] == b[..k]
      invariant exists j :: k <= j < |a| && a[j] != b[j]
      decreases |a| - k
    {
      k := k + 1;
    }
  }

  lemma DistinctLength<N(!new)>(a: seq<N>, names: set<N>)
    requires Distinct(a) && Elements(a) == names
    ensures |a| == |names|
  {
    if a != [] {
      var last := |a| - 1;
      assert a == a[..last] + [a[last]];
      assert a[last] !in a[..last];
      DistinctLength(a[..last], names - {a[last]});
    }
  }

  /** A complete pass is the lexicographically least of all orders that respect the edges. */
  lemma PassIsLeast<N(!new)>(names: set<N>, adj: Adjacency<N>, index: map<N, int>, order: seq<N>, other: seq<N>)
    requires names <= index.Keys && IsPass(names, adj, index, order) && Elements(order) == names
    requires forall m, n | m in names && n in names && m != n :: index[m] != index[n]
    requires IsTopological(names, adj, other)
    ensures LexLeq(index, order, other)
  {
    if order != other {
      PassIsOrder(names, adj, index, order);
      DistinctLength(order, names);
      DistinctLength(other, names);
      var k := FirstDifference(order, other);
      assert other[k] in other;
      assert other[k] !in other[..k];
      assert other[k] in Ready(names, adj, Elements(order[..k]));
      assert order[k] in order;
    }
  }

  // --- removing an edge ---

  /** The list without the first occurrence of x. */
  function Without<N(==)>(s: seq<N>, x: N): seq<N> {
    if s == [] then [] else if s[0] == x then s[1..] else [s[0]] + Without(s[1..], x)
  }

  lemma {:induction false} WithoutDistinct<N>(s: seq<N>, x: N)
    requires Distinct(s)
    ensures Distinct(Without(s, x)) && Elements(Without(s, x)) == Elements(s) - {x}
  {
    if s != [] {
      assert s == [s[0]] + s[1..];
      assert s[0] !in s[1..];
      WithoutDistinct(s[1..], x);
      assert Elements(s) == {s[0]} + Elements(s[1..]);
      if s[0] != x {
        assert s[0] !in Elements(Without(s[1..], x));
        assert Elements(Without(s, x)) == {s[0]} + Elements(Without(s[1..], x));
      }
    }
  }

  lemma OutAfterRemoval<N(!new)>(adj: Adjacency<N>, from: N, to: N, m: N, n: N)
    requires from in adj && Distinct(adj[from])
    ensures var adj' := adj[from := Without(adj[from], to)];
      n in Out(adj', m) <==> n in Out(adj, m) && (m != from || n != to)
  {
    WithoutDistinct(adj[from], to);
    assert n in Elements(Without(adj[from], to)) <==> n in Elements(adj[from]) && n != to;
  }

  lemma PredsAfterRemoval<N(!new)>(names: set<N>, adj: Adjacency<N>, from: N, to: N, n: N)
    requires from in adj && Distinct(adj[from])
    ensures var adj' := adj[from := Without(adj[from], to)];
      Preds(names, adj', n) == Preds(names, adj, n) - if n == to then {from} else {}
  {
    forall m | m in names { OutAfterRemoval(adj, from, to, m, n); }
  }

  /** Removing an edge keeps the degrees right when that of its target goes down by one. */
  lemma EdgeRemoved<N(!new)>(names: set<N>, adj: Adjacency<N>, deg: Degrees<N>, from: N, to: N)
    requires IsGraph(names, adj, deg) && from in adj && to in adj[from]
    ensures IsGraph(names, adj[from := Without(adj[from], to)], deg[to := deg[to] - 1])
  {
    var adj', deg' := adj[from := Without(adj[from], to)], deg[to := deg[to] - 1];
    WithoutDistinct(adj[from], to);
    assert to in Elements(adj[from]);
    assert deg'.Keys == names;
    assert forall m | m in adj' :: m in names && Distinct(adj'[m]) && Elements(adj'[m]) <= names;
    forall n | n in names ensures deg'[n] == |Preds(names, adj', n)| {
      DegreeAfterRemoval(names, adj, deg, from, to, n);
    }
  }

  lemma DegreeAfterRemoval<N(!new)>(names: set<N>, adj: Adjacency<N>, deg: Degrees<N>, from: N, to: N, n: N)
    requires n in names && n in deg && deg[n] == |Preds(names, adj, n)|
    requires from in names && from in adj && Distinct(adj[from]) && to in adj[from] && to in deg
    ensures deg[to := deg[to] - 1][n] == |Preds(names, adj[from := Without(adj[from], to)], n)|
  {
    PredsAfterRemoval(names, adj, from, to, n);
    if n == to { assert from in Preds(names, adj, to); }
  }

  lemma EdgesAfterRemoval<N(!new)>(names: set<N>, adj: Adjacency<N>, from: N, to: N)
    requires from in names && from in adj && Distinct(adj[from]) && to in adj[from]
    ensures (from, to) in Edges(names, adj)
    ensures Edges(names, adj[from := Without(adj[from], to)]) == Edges(names, adj) - {(from, to)}
  {
    var adj' := adj[from := Without(adj[from], to)];
    forall m, n ensures (m, n) in Edges(names, adj') <==> (m, n) in Edges(names, adj) - {(from, to)} {
      OutAfterRemoval(adj, from, to, m, n);
    }
  }

  /** from is the first of the members, in their order, with an edge into the given node. */
  ghost predicate IsFirstInto<N(!new)>(adj: Adjacency<N>, members: seq<N>, from: N, to: N) {
    exists i :: 0 <= i < |members| && FirstIntoAt(adj, members, from, to, i)
  }

  predicate FirstIntoAt<N(==,!new)>(adj: Adjacency<N>, members: seq<N>, from: N, to: N, i: nat)
    requires i < |members|
  {
    members[i] == from && to in Out(adj, from) && forall j | 0 <= j < i :: to !in Out(adj, members[j])
  }

  /** adj' is adj without the edge from the first member that has one to the member of highest position. */
  ghost predicate IsBreak<N(!new)>(adj: Adjacency<N>, adj': Adjacency<N>, members: seq<N>, index: map<N, int>, from: N, to: N)
    requires Elements(members) <= index.Keys
  {
    && to in members && (forall m | m in members :: m in Elements(members) && index[m] <= index[to])
    && IsFirstInto(adj, members, from, to) && from in adj && adj' == adj[from := Without(adj[from], to)]
  }

  /** Breaking removes one edge, and keeps the degrees right when that of its target goes down by one. */
  lemma BreakDropsEdge<N(!new)>(names: set<N>, adj: Adjacency<N>, adj': Adjacency<N>, deg: Degrees<N>, members: seq<N>,
                                index: map<N, int>, from: N, to: N)
    requires IsGraph(names, adj, deg) && Elements(members) <= names <= index.Keys
    requires IsBreak(adj, adj', members, index, from, to)
    ensures from in members && to in Out(adj, from) && to in deg && IsGraph(names, adj', deg[to := deg[to] - 1])
    ensures (from, to) in Edges(names, adj) && Edges(names, adj') == Edges(names, adj) - {(from, to)}
    ensures |Edges(names, adj')| == |Edges(names, adj)| - 1
  {
    assert from in Elements(members) && to in Elements(members);
    EdgeRemoved(names, adj, deg, from, to);
    EdgesAfterRemoval(names, adj, from, to);
  }

  // --- adding an edge ---

  lemma EdgeAdded<N(!new)>(names: set<N>, adj: Adjacency<N>, deg: Degrees<N>, from: N, to: N)
    requires IsGraph(names, adj, deg) && from in names && to in names && to !in Out(adj, from)
    ensures IsGraph(names, adj[from := Out(adj, from) + [to]], deg[to := deg[to] + 1])
  {
    var adj', deg' := adj[from := Out(adj, from) + [to]], deg[to := deg[to] + 1];
    assert Elements(Out(adj, from) + [to]) == Elements(Out(adj, from)) + {to};
    assert Distinct(Out(adj, from) + [to]);
    assert deg'.Keys == names;
    assert forall m | m in adj' :: m in names && Distinct(adj'[m]) && Elements(adj'[m]) <= names;
    forall n | n in names ensures deg'[n] == |Preds(names, adj', n)| {
      DegreeAfterAddition(names, adj, deg, from, to, n);
    }
  }

  lemma DegreeAfterAddition<N(!new)>(names: set<N>, adj: Adjacency<N>, deg: Degrees<N>, from: N, to: N, n: N)
    requires n in names && n in deg && deg[n] == |Preds(names, adj, n)|
    requires from in names && to in deg && to !in Out(adj, from)
    ensures deg[to := deg[to] + 1][n] == |Preds(names, adj[from := Out(adj, from) + [to]], n)|
  {
    PredsAfterAddition(names, adj, from, to, n);
    if n == to { assert from !in Preds(names, adj, to); }
  }

  lemma PredsAfterAddition<N(!new)>(names: set<N>, adj: Adjacency<N>, from: N, to: N, n: N)
    requires from in names
    ensures Preds(names, adj[from := Out(adj, from) + [to]], n) == Preds(names, adj, n) + if n == to then {from} else {}
  {
    forall m | m in names { OutAfterAddition(adj, from, to, m, n); }
  }

  lemma OutAfterAddition<N(!new)>(adj: Adjacency<N>, from: N, to: N, m: N, n: N)
    ensures n in Out(adj[from := Out(adj, from) + [to]], m) <==> n in Out(adj, m) || (m == from && n == to)
  {
  }

  // --- the graph of a step list ---

  /** Step b lists a among its dependencies. */
  ghost predicate DependsOn(steps: seq<Step>, b: string, a: string) {
    exists s :: s in steps && s.name == b && a in s.dependsOn
  }

  ghost predicate IsGraphOf(steps: seq<Step>, adj: Adjacency<string>) {
    forall a, b {:trigger DependsOn(steps, b, a)} :: b in Out(adj, a) <==> DependsOn(steps, b, a)
  }
}
