/** Sequencing a playbook: building the dependency graph of its steps and sorting it. */
module Sequence {
  import opened StepGraph
  import opened KahnPass
  import opened Sequencer
  import opened CycleBreaking
  import opened EndingSorts

  datatype Outcome =
    | UnknownStep(step: string, dependency: string)
    | Sequenced(steps: seq<Step>, warnings: seq<seq<string>>)
    | NeverEnds

  /** Name to position; a repeated name keeps its last position. */
  method BuildIndex(steps: seq<Step>) returns (index: map<string, int>)
    ensures IsIndex(steps, index)
  {
    index := map[];
    for i := 0 to |steps|
      invariant IsIndex(steps[..i], index)
    {
      IndexGrows(steps, i, index);
      index := index[steps[i].name := i];
    }
    assert steps[..|steps|] == steps;
  }

  lemma IndexGrows(steps: seq<Step>, i: nat, index: map<string, int>)
    requires i < |steps| && IsIndex(steps[..i], index)
    ensures IsIndex(steps[..i + 1], index[steps[i].name := i])
  {
    assert steps[..i + 1] == steps[..i] + [steps[i]];
    assert NameSet(steps[..i + 1]) == NameSet(steps[..i]) + {steps[i].name};
  }

  ghost predicate DependenciesNamed(steps: seq<Step>) {
    forall s, d | s in steps && d in s.dependsOn :: d in NameSet(steps)
  }

  /** The first dependency that names no step, if there is one. */
  method FindUnknown(steps: seq<Step>, index: map<string, int>) returns (found: bool, step: string, dependency: string)
    requires IsIndex(steps, index)
    ensures found ==> DependsOn(steps, step, dependency) && dependency !in NameSet(steps)
    ensures !found ==> DependenciesNamed(steps)
  {
    for i := 0 to |steps|
      invariant forall k, d | 0 <= k < i && d in steps[k].dependsOn :: d in index
    {
      var s := steps[i];
      for j := 0 to |s.dependsOn|
        invariant forall d | d in s.dependsOn[..j] :: d in index
      {
        if s.dependsOn[j] !in index {
          assert s in steps && s.dependsOn[j] in s.dependsOn;
          return true, s.name, s.dependsOn[j];
        }
      }
      assert s.dependsOn[..|s.dependsOn|] == s.dependsOn;
    }
    return false, "", "";
  }

  /** b lists a among its dependencies, in one of the first i steps or among the first j
      dependencies of the next. */
  ghost predicate Seen(steps: seq<Step>, i: nat, j: nat, b: string, a: string)
    requires i <= |steps| && (j > 0 ==> i < |steps| && j <= |steps[i].dependsOn|)
  {
    || (exists k :: 0 <= k < i && steps[k].name == b && a in steps[k].dependsOn)
    || (j > 0 && steps[i].name == b && a in steps[i].dependsOn[..j])
  }

  ghost predicate GraphSoFar(steps: seq<Step>, i: nat, j: nat, adj: Adjacency<string>)
    requires i <= |steps| && (j > 0 ==> i < |steps| && j <= |steps[i].dependsOn|)
  {
    forall a, b {:trigger Seen(steps, i, j, b, a)} :: b in Out(adj, a) <==> Seen(steps, i, j, b, a)
  }

  /** Adds an edge unless it is there already. */
  method AddEdge(ghost names: set<string>, adj: Adjacency<string>, deg: Degrees<string>, from: string, to: string)
    returns (adj': Adjacency<string>, deg': Degrees<string>)
    requires IsGraph(names, adj, deg) && from in names && to in names
    ensures IsGraph(names, adj', deg')
    ensures forall a, b :: b in Out(adj', a) <==> b in Out(adj, a) || (a == from && b == to)
  {
    adj', deg' := adj, deg;
    if to !in Out(adj, from) {
      EdgeAdded(names, adj, deg, from, to);
      adj', deg' := adj[from := Out(adj, from) + [to]], deg[to := deg[to] + 1];
    }
  }

  lemma SeenMore(steps: seq<Step>, i: nat, j: nat)
    requires i < |steps| && j < |steps[i].dependsOn|
    ensures forall a, b :: Seen(steps, i, j + 1, b, a) <==>
      Seen(steps, i, j, b, a) || (b == steps[i].name && a == steps[i].dependsOn[j])
  {
    forall a, b ensures Seen(steps, i, j + 1, b, a) <==>
      Seen(steps, i, j, b, a) || (b == steps[i].name && a == steps[i].dependsOn[j])
    {
      OneMore(steps[i].dependsOn, j, a);
    }
  }

  lemma OneMore(s: seq<string>, j: nat, a: string)
    requires j < |s|
    ensures a in s[..j + 1] <==> a in s[..j] || a == s[j]
  {
    assert s[..j + 1] == s[..j] + [s[j]];
  }

  lemma SeenStep(steps: seq<Step>, i: nat)
    requires i < |steps|
    ensures forall a, b :: Seen(steps, i + 1, 0, b, a) <==> Seen(steps, i, |steps[i].dependsOn|, b, a)
  {
    assert steps[i].dependsOn[..|steps[i].dependsOn|] == steps[i].dependsOn;
  }

  lemma SeenAll(steps: seq<Step>, adj: Adjacency<string>)
    requires GraphSoFar(steps, |steps|, 0, adj)
    ensures IsGraphOf(steps, adj)
  {
    forall a, b ensures b in Out(adj, a) <==> DependsOn(steps, b, a) {
      assert Seen(steps, |steps|, 0, b, a) <==> DependsOn(steps, b, a) by {
        if DependsOn(steps, b, a) {
          var s :| s in steps && s.name == b && a in s.dependsOn;
          var k :| 0 <= k < |steps| && steps[k] == s;
        }
      }
    }
  }

  lemma NextSeen(steps: seq<Step>, i: nat, j: nat, adj: Adjacency<string>, adj': Adjacency<string>)
    requires i < |steps| && j < |steps[i].dependsOn| && GraphSoFar(steps, i, j, adj)
    requires forall a, b :: b in Out(adj', a) <==> b in Out(adj, a) || (a == steps[i].dependsOn[j] && b == steps[i].name)
    ensures GraphSoFar(steps, i, j + 1, adj')
  {
    SeenMore(steps, i, j);
    forall a, b ensures b in Out(adj', a) <==> Seen(steps, i, j + 1, b, a) {
      assert b in Out(adj, a) <==> Seen(steps, i, j, b, a);
    }
  }

  /** The edges of one step. */
  method AddStepEdges(ghost names: set<string>, steps: seq<Step>, i: nat, adj: Adjacency<string>, deg: Degrees<string>)
    returns (adj': Adjacency<string>, deg': Degrees<string>)
    requires i < |steps| && steps[i].name in names && forall d | d in steps[i].dependsOn :: d in names
    requires IsGraph(names, adj, deg) && GraphSoFar(steps, i, 0, adj)
    ensures IsGraph(names, adj', deg') && GraphSoFar(steps, i + 1, 0, adj')
  {
    adj', deg' := adj, deg;
    var deps := steps[i].dependsOn;
    for j := 0 to |deps|
      invariant IsGraph(names, adj', deg') && GraphSoFar(steps, i, j, adj')
    {
      assert deps[j] in deps;
      ghost var was := adj';
      adj', deg' := AddEdge(names, adj', deg', deps[j], steps[i].name);
      NextSeen(steps, i, j, was, adj');
    }
    SeenStep(steps, i);
    forall a, b ensures b in Out(adj', a) <==> Seen(steps, i + 1, 0, b, a) {
      assert b in Out(adj', a) <==> Seen(steps, i, |deps|, b, a);
    }
  }

  lemma EmptyGraph(names: set<string>, adj: Adjacency<string>, deg: Degrees<string>)
    requires adj == map[] && deg == map n | n in names :: 0
    ensures IsGraph(names, adj, deg)
  {
    forall n | n in names ensures deg[n] == |Preds(names, adj, n)| {
      assert Preds(names, adj, n) == {};
    }
  }

  method BuildGraph(steps: seq<Step>) returns (adj: Adjacency<string>, deg: Degrees<string>)
    requires DependenciesNamed(steps)
    ensures IsGraph(NameSet(steps), adj, deg) && IsGraphOf(steps, adj)
  {
    adj, deg := map[], map n | n in NameSet(steps) :: 0;
    EmptyGraph(NameSet(steps), adj, deg);
    for i := 0 to |steps|
      invariant IsGraph(NameSet(steps), adj, deg) && GraphSoFar(steps, i, 0, adj)
    {
      assert steps[i] in steps;
      adj, deg := AddStepEdges(NameSet(steps), steps, i, adj, deg);
    }
    SeenAll(steps, adj);
  }

  // --- results ---

  /** The edges of a step list, as pairs (dependency, dependent). */
  ghost predicate RespectsDependencies(steps: seq<Step>, order: seq<string>) {
    forall a, b, k {:trigger DependsOn(steps, b, a), order[k]} |
      0 <= k < |order| && order[k] == b && DependsOn(steps, b, a) :: a in order[..k]
  }

  lemma OrderOfGraph(steps: seq<Step>, adj: Adjacency<string>, order: seq<string>)
    requires IsGraphOf(steps, adj) && Elements(order) == NameSet(steps) && Distinct(order)
    requires DependenciesNamed(steps)
    ensures RespectsDependencies(steps, order) <==> IsTopological(NameSet(steps), adj, order)
  {
    var names := NameSet(steps);
    if IsTopological(names, adj, order) {
      forall a, b, k | 0 <= k < |order| && order[k] == b && DependsOn(steps, b, a) ensures a in order[..k] {
        var s :| s in steps && s.name == b && a in s.dependsOn;
        assert b in Out(adj, a);
        assert a in Preds(names, adj, order[k]);
      }
    }
    if RespectsDependencies(steps, order) {
      forall k | 0 <= k < |order| ensures Preds(names, adj, order[k]) <= Elements(order[..k]) {
        forall a | a in Preds(names, adj, order[k]) ensures a in order[..k] {
          assert DependsOn(steps, order[k], a);
        }
      }
    }
  }

  /** Distinct steps listed under all their names are a permutation of the list. */
  lemma SameNamesArePermutation(steps: seq<Step>, result: seq<Step>)
    requires DistinctSteps(steps) && |result| == |steps| && forall s | s in result :: s in steps
    requires Elements(NamesOf(result)) == NameSet(steps) && Distinct(NamesOf(result))
    ensures multiset(result) == multiset(steps)
  {
    forall s ensures multiset(result)[s] == multiset(steps)[s] {
      CountOnce(steps, s);
      CountOnce(result, s) by {
        forall i, j | 0 <= i < j < |result| ensures result[i].name != result[j].name {
          assert NamesOf(result)[i] != NamesOf(result)[j];
        }
      }
      if s in steps {
        assert s.name in NameSet(steps);
        var i :| 0 <= i < |result| && NamesOf(result)[i] == s.name;
        assert result[i] in steps && result[i].name == s.name;
        assert result[i] == s;
      }
    }
  }

  lemma CountOnce(steps: seq<Step>, s: Step)
    requires DistinctSteps(steps)
    ensures multiset(steps)[s] == if s in steps then 1 else 0
  {
    if steps != [] {
      var last := |steps| - 1;
      assert steps == steps[..last] + [steps[last]];
      CountOnce(steps[..last], s);
      if s == steps[last] && s in steps[..last] {
        assert false;
      }
    }
  }

  ghost predicate HasDegrees<N(!new)>(names: set<N>, adj: Adjacency<N>) {
    exists deg :: IsGraph(names, adj, deg)
  }

  /** The sort of a step list: the graphs of its rounds, from that of the dependencies on, and the
      names that its last round lists. */
  ghost predicate IsSortOf(steps: seq<Step>, index: map<string, int>, graphs: seq<Adjacency<string>>, order: seq<string>) {
    && DependenciesNamed(steps) && IsIndex(steps, index) && Elements(NamesOf(steps)) <= index.Keys
    && IsSort(NamesOf(steps), index, graphs, order)
    && IsGraphOf(steps, graphs[0]) && HasDegrees(Elements(NamesOf(steps)), graphs[0])
  }

  /** What the outcome of a sort says: it ends if and only if every repeated name has no prerequisites
      in the graph that is left, and lists each step as often as it occurs. */
  ghost predicate Reports(steps: seq<Step>, index: map<string, int>, graphs: seq<Adjacency<string>>, order: seq<string>, r: Outcome)
    requires graphs != []
  {
    && (r.Sequenced? <==> |order| == |steps|)
    && (r.Sequenced? <==> RepeatedAreRoots(NamesOf(steps), graphs[|graphs| - 1]))
    && (r.Sequenced? ==>
      && FromIndex(steps, index, r.steps) && NamesOf(r.steps) == order && multiset(order) == multiset(NamesOf(steps))
      && Accounted(NameSet(steps), graphs[0], graphs[|graphs| - 1], r.warnings))
  }

  method SortSteps(steps: seq<Step>, index: map<string, int>)
    returns (r: Outcome, ghost graphs: seq<Adjacency<string>>, ghost order: seq<string>)
    requires DependenciesNamed(steps) && IsIndex(steps, index)
    ensures !r.UnknownStep? && IsSortOf(steps, index, graphs, order) && Reports(steps, index, graphs, order, r)
  {
    var adj, inDegree := BuildGraph(steps);
    var stops, sorted, warnings;
    stops, sorted, warnings, graphs := KahnSort(steps, adj, inDegree, index);
    order := NamesOf(sorted);
    NamesAreElements(steps);
    AllCopies(NamesOf(steps), graphs[|graphs| - 1], index, order);
    r := if stops then Sequenced(sorted, warnings) else NeverEnds;
  }

  /** Sequences the steps of a playbook.  graphs are the graphs of the rounds of the sort and order is
      what its last round lists. */
  method SequenceSteps(steps: seq<Step>)
    returns (r: Outcome, ghost graphs: seq<Adjacency<string>>, ghost order: seq<string>, ghost index: map<string, int>)
    ensures r.UnknownStep? <==> !DependenciesNamed(steps)
    ensures r.UnknownStep? ==> DependsOn(steps, r.step, r.dependency) && r.dependency !in NameSet(steps)
    ensures !r.UnknownStep? ==> IsSortOf(steps, index, graphs, order) && Reports(steps, index, graphs, order, r)
  {
    graphs, order := [], [];
    var nameIndex := BuildIndex(steps);
    index := nameIndex;
    var unknown, step, dependency := FindUnknown(steps, nameIndex);
    if unknown {
      UnknownIsUnnamed(steps, step, dependency);
      return UnknownStep(step, dependency), graphs, order, index;
    }
    r, graphs, order := SortSteps(steps, nameIndex);
  }

  lemma UnknownIsUnnamed(steps: seq<Step>, b: string, a: string)
    requires DependsOn(steps, b, a) && a !in NameSet(steps)
    ensures !DependenciesNamed(steps)
  {
  }

  lemma AllCopies<N(!new)>(all: seq<N>, adj: Adjacency<N>, index: map<N, int>, order: seq<N>)
    requires Elements(all) <= index.Keys && IsPassOf(all, adj, index, order)
    ensures |order| == |all| <==> multiset(order) == multiset(all)
  {
    ListedFits(all, adj, index, order);
  }

  /** What the outcome for distinct steps satisfies. */
  ghost predicate IsSequenced(steps: seq<Step>, graph: Adjacency<string>, kept: Adjacency<string>, index: map<string, int>,
                              result: seq<Step>, warnings: seq<seq<string>>) {
    && DistinctSteps(steps) && DependenciesNamed(steps)
    && IsGraphOf(steps, graph) && IsIndex(steps, index)
    && multiset(result) == multiset(steps)
    && IsTopological(NameSet(steps), kept, NamesOf(result))
    && LowestFirst(NameSet(steps), kept, index, NamesOf(result))
    && Accounted(NameSet(steps), graph, kept, warnings)
  }

  /** Distinct steps are always sequenced: their sort ends, in an order that respects every edge that is
      kept, lowest position first. */
  lemma DistinctIsSequenced(steps: seq<Step>, index: map<string, int>, graphs: seq<Adjacency<string>>, order: seq<string>, r: Outcome)
    requires DistinctSteps(steps) && IsSortOf(steps, index, graphs, order) && Reports(steps, index, graphs, order, r)
    ensures r.Sequenced? && IsSequenced(steps, graphs[0], graphs[|graphs| - 1], index, r.steps, r.warnings)
  {
    NamesAreElements(steps);
    OneCopyEach(steps);
    SortWithoutCopies(NamesOf(steps), index, graphs, order);
    TakenFromSteps(steps, index, r.steps);
    SameNamesArePermutation(steps, r.steps);
  }

  lemma SortWithoutCopies<N(!new)>(all: seq<N>, index: map<N, int>, graphs: seq<Adjacency<N>>, order: seq<N>)
    requires Elements(all) <= index.Keys && IsSort(all, index, graphs, order)
    requires forall n | n in all :: multiset(all)[n] == 1
    ensures var kept := graphs[|graphs| - 1];
      && RepeatedAreRoots(all, kept) && IsTopological(Elements(all), kept, order)
      && LowestFirst(Elements(all), kept, index, order) && |order| == |all|
  {
    var kept := graphs[|graphs| - 1];
    PassWithoutCopies(all, kept, index, order);
    PassIsOrder(Elements(all), kept, index, order);
    CompleteIff(all, kept, index, order);
  }

  lemma TakenFromSteps(steps: seq<Step>, index: map<string, int>, result: seq<Step>)
    requires FromIndex(steps, index, result)
    ensures forall s | s in result :: s in steps
  {
  }

  lemma OneCopyEach(steps: seq<Step>)
    requires DistinctSteps(steps)
    ensures forall n | n in NamesOf(steps) :: multiset(NamesOf(steps))[n] == 1
  {
    forall n | n in NamesOf(steps) ensures multiset(NamesOf(steps))[n] == 1 {
      if multiset(NamesOf(steps))[n] > 1 {
        var i, j := TwoCopies(NamesOf(steps), n);
        assert false;
      }
    }
  }

  lemma {:induction false} TwoCopies<N>(all: seq<N>, n: N) returns (i: nat, j: nat)
    requires multiset(all)[n] > 1
    ensures i < j < |all| && all[i] == n && all[j] == n
  {
    var last := |all| - 1;
    assert all == all[..last] + [all[last]];
    if multiset(all[..last])[n] > 1 {
      i, j := TwoCopies(all[..last], n);
    } else {
      assert n in multiset(all[..last]);
      i :| 0 <= i < last && all[..last][i] == n;
      j := last;
    }
  }

  /** There are no warnings exactly if some order of the steps respects all dependencies;
      the result is then the lexicographically least of them by original position. */
  lemma AcyclicIsLeast(steps: seq<Step>, graph: Adjacency<string>, kept: Adjacency<string>, index: map<string, int>,
                       result: seq<Step>, warnings: seq<seq<string>>, other: seq<string>)
    requires IsSequenced(steps, graph, kept, index, result, warnings)
    requires Distinct(other) && Elements(other) == NameSet(steps) && RespectsDependencies(steps, other)
    ensures warnings == [] && RespectsDependencies(steps, NamesOf(result))
    ensures LexLeq(index, NamesOf(result), other)
  {
    var names, order := NameSet(steps), NamesOf(result);
    OrderOfGraph(steps, graph, other);
    OrderOfGraph(steps, graph, order);
    assert Acyclic(names, graph);
    forall m, n | m in names && n in names && m != n ensures index[m] != index[n] {
      assert steps[index[m]].name == m && steps[index[n]].name == n;
    }
    NothingIsReady(names, kept, order);
    PassIsLeast(names, kept, index, order, other);
  }

  lemma NothingIsReady<N(!new)>(names: set<N>, adj: Adjacency<N>, order: seq<N>)
    requires Elements(order) == names
    ensures Ready(names, adj, Elements(order)) == {}
  {
  }

  /** A playbook whose order already respects its dependencies is returned unchanged. */
  lemma OrderedIsUnchanged(steps: seq<Step>, graph: Adjacency<string>, kept: Adjacency<string>, index: map<string, int>,
                           result: seq<Step>, warnings: seq<seq<string>>)
    requires IsSequenced(steps, graph, kept, index, result, warnings)
    requires RespectsDependencies(steps, NamesOf(steps))
    ensures result == steps && warnings == []
  {
    var order, given := NamesOf(result), NamesOf(steps);
    NamesAreElements(steps);
    AcyclicIsLeast(steps, graph, kept, index, result, warnings, given);
    if order != given {
      GivenIsLeast(steps, index, order);
      assert false;
    }
    SameNamesSameSteps(steps, result);
  }

  lemma GivenIsLeast(steps: seq<Step>, index: map<string, int>, order: seq<string>)
    requires DistinctSteps(steps) && IsIndex(steps, index)
    requires Distinct(order) && Elements(order) == NameSet(steps) == Elements(NamesOf(steps))
    requires LexLeq(index, order, NamesOf(steps))
    ensures order == NamesOf(steps)
  {
    var given := NamesOf(steps);
    if order != given {
      var k :| 0 <= k < |order| && k < |given| && order[..k] == given[..k] && index[order[k]] < index[given[k]];
      PositionIsIndex(steps, index, k);
      NotAmongTheFirst(steps, index, order, k);
      assert false;
    }
  }

  lemma NotAmongTheFirst(steps: seq<Step>, index: map<string, int>, order: seq<string>, k: nat)
    requires IsIndex(steps, index) && Distinct(order) && Elements(order) == NameSet(steps)
    requires k < |order| && k <= |steps| && order[..k] == NamesOf(steps)[..k]
    ensures order[k] in index && k <= index[order[k]]
  {
    assert order[k] in Elements(order);
    var i := index[order[k]];
    assert NamesOf(steps)[i] == order[k];
    assert forall j | 0 <= j < k :: order[j] == order[..k][j] == NamesOf(steps)[..k][j] == NamesOf(steps)[j];
  }

  lemma SameNamesSameSteps(steps: seq<Step>, result: seq<Step>)
    requires DistinctSteps(steps) && multiset(result) == multiset(steps) && NamesOf(result) == NamesOf(steps)
    ensures result == steps
  {
    assert |result| == |NamesOf(result)| == |steps|;
    forall i | 0 <= i < |steps| ensures result[i] == steps[i] {
      assert NamesOf(result)[i] == NamesOf(steps)[i];
      SameMember(result, steps, i);
      SameNameSameStep(steps, i, result[i]);
    }
  }

  lemma SameMember<T>(x: seq<T>, y: seq<T>, i: nat)
    requires multiset(x) == multiset(y) && i < |x|
    ensures x[i] in y
  {
    assert x[i] in multiset(x);
  }

  lemma SameNameSameStep(steps: seq<Step>, i: nat, s: Step)
    requires DistinctSteps(steps) && i < |steps| && s in steps && s.name == steps[i].name
    ensures s == steps[i]
  {
    var j :| 0 <= j < |steps| && steps[j] == s;
    assert j == i || j < i || i < j;
  }

  lemma PositionIsIndex(steps: seq<Step>, index: map<string, int>, k: nat)
    requires DistinctSteps(steps) && IsIndex(steps, index) && k < |steps|
    ensures index[steps[k].name] == k
  {
    var i := index[steps[k].name];
    assert steps[i].name == steps[k].name && k <= i;
  }

  /** A playbook with cycles is warned about. */
  lemma WarningsIffCyclic(steps: seq<Step>, graph: Adjacency<string>, kept: Adjacency<string>, index: map<string, int>,
                          result: seq<Step>, warnings: seq<seq<string>>)
    requires IsSequenced(steps, graph, kept, index, result, warnings)
    ensures warnings == [] <==>
      exists order :: Distinct(order) && Elements(order) == NameSet(steps) && RespectsDependencies(steps, order)
  {
    if warnings == [] {
      OrderOfGraph(steps, graph, NamesOf(result));
    }
    if order :| Distinct(order) && Elements(order) == NameSet(steps) && RespectsDependencies(steps, order) {
      AcyclicIsLeast(steps, graph, kept, index, result, warnings, order);
    }
  }

  // --- repeated names ---

  /** Every step that shares its name with another is without dependencies. */
  predicate RepeatedAreFree(steps: seq<Step>) {
    forall i, j | 0 <= i < j < |steps| && steps[i].name == steps[j].name ::
      steps[i].dependsOn == [] && steps[j].dependsOn == []
  }

  /** If some order respects all dependencies, the sort ends exactly if every repeated name is without
      dependencies.  (It lists any other repeated name once in each round, and then stands still.) */
  lemma EndsIff(steps: seq<Step>, index: map<string, int>, graphs: seq<Adjacency<string>>, order: seq<string>, some: seq<string>)
    requires IsSortOf(steps, index, graphs, order)
    requires Distinct(some) && Elements(some) == NameSet(steps) && RespectsDependencies(steps, some)
    ensures |graphs| == 1
    ensures |order| == |steps| <==> RepeatedAreFree(steps)
  {
    NamesAreElements(steps);
    OrderOfGraph(steps, graphs[0], some);
    AcyclicEndsIff(NamesOf(steps), index, graphs, order, some);
    FreeIffRoots(steps, graphs[0]);
  }

  /** For every playbook, whatever its cycles: the sort ends if and only if no dependency of a repeated
      step would come out if the steps positioned after that step had no dependencies.  (For then all of
      these dependencies are dropped.) */
  lemma EndsIffRepeatedWait(steps: seq<Step>, index: map<string, int>, graphs: seq<Adjacency<string>>, order: seq<string>)
    requires IsSortOf(steps, index, graphs, order)
    ensures |order| == |steps| <==> RepeatedWait(NamesOf(steps), graphs[0], index)
  {
    var deg :| IsGraph(Elements(NamesOf(steps)), graphs[0], deg);
    PositionsDiffer(steps, index);
    EndsIffWaiting(NamesOf(steps), index, graphs, order, deg);
  }

  lemma PositionsDiffer(steps: seq<Step>, index: map<string, int>)
    requires IsIndex(steps, index) && Elements(NamesOf(steps)) <= index.Keys
    ensures Injective(Elements(NamesOf(steps)), index)
  {
    forall m, n | m in Elements(NamesOf(steps)) && n in Elements(NamesOf(steps)) && m != n ensures index[m] != index[n] {
      assert steps[index[m]].name == m && steps[index[n]].name == n;
    }
  }

  /** So any playbook is sorted in which every repeated name is without dependencies. */
  lemma FreeEnds(steps: seq<Step>, index: map<string, int>, graphs: seq<Adjacency<string>>, order: seq<string>)
    requires IsSortOf(steps, index, graphs, order) && RepeatedAreFree(steps)
    ensures |order| == |steps|
  {
    FreeIffRoots(steps, graphs[0]);
    RootsIff(NamesOf(steps), graphs[0]);
    NoneLoose(NamesOf(steps), graphs[0], index);
    EndsIffRepeatedWait(steps, index, graphs, order);
  }

  lemma NoneLoose<N(!new)>(all: seq<N>, adj: Adjacency<N>, index: map<N, int>)
    requires Elements(all) <= index.Keys && forall n :: !HasLoose(all, adj, n)
    ensures RepeatedWait(all, adj, index)
  {
  }

  lemma AcyclicEndsIff<N(!new)>(all: seq<N>, index: map<N, int>, graphs: seq<Adjacency<N>>, order: seq<N>, some: seq<N>)
    requires Elements(all) <= index.Keys && IsSort(all, index, graphs, order)
    requires IsTopological(Elements(all), graphs[0], some)
    ensures |graphs| == 1 && (|order| == |all| <==> RepeatedAreRoots(all, graphs[0]))
  {
    NoRound(all, index, graphs, order, some);
    CompleteIff(all, graphs[0], index, order);
    ListedFits(all, graphs[0], index, order);
  }

  lemma NoRound<N(!new)>(all: seq<N>, index: map<N, int>, graphs: seq<Adjacency<N>>, order: seq<N>, some: seq<N>)
    requires Elements(all) <= index.Keys && IsSort(all, index, graphs, order)
    requires IsTopological(Elements(all), graphs[0], some)
    ensures |graphs| == 1
  {
    if |graphs| > 1 {
      assert RoundAt(all, index, graphs, 0);
      var first, from, to :| BreaksAfter(all, index, graphs[0], graphs[1], first, from, to);
      AcyclicListsAll(all, graphs[0], index, first, some);
      NothingUnlisted(all, Elements(first));
      assert false;
    }
  }

  lemma FreeIffRoots(steps: seq<Step>, adj: Adjacency<string>)
    requires DependenciesNamed(steps) && IsGraphOf(steps, adj)
    ensures RepeatedAreRoots(NamesOf(steps), adj) <==> RepeatedAreFree(steps)
  {
    var all := NamesOf(steps);
    NamesAreElements(steps);
    if RepeatedAreRoots(all, adj) {
      forall i, j, k | 0 <= i < j < |steps| && steps[i].name == steps[j].name && (k == i || k == j)
        ensures steps[k].dependsOn == []
      {
        AtLeastTwo(all, i, j);
        assert RootIfRepeated(all, adj, steps[i].name);
        if steps[k].dependsOn != [] { DependencyIsPrerequisite(steps, adj, k); assert false; }
      }
    }
    if RepeatedAreFree(steps) {
      forall n ensures RootIfRepeated(all, adj, n) {
        if n in all && multiset(all)[n] > 1 { FreeIsRoot(steps, adj, n); }
      }
    }
  }

  lemma FreeIsRoot(steps: seq<Step>, adj: Adjacency<string>, n: string)
    requires IsGraphOf(steps, adj) && RepeatedAreFree(steps) && multiset(NamesOf(steps))[n] > 1
    ensures Preds(Elements(NamesOf(steps)), adj, n) == {}
  {
    var i, j := TwoCopies(NamesOf(steps), n);
    forall m ensures n !in Out(adj, m) {
      if n in Out(adj, m) {
        var k := PrerequisiteIsDependency(steps, adj, n, m);
        assert false;
      }
    }
  }

  lemma AtLeastTwo<N>(all: seq<N>, i: nat, j: nat)
    requires i < j < |all| && all[i] == all[j]
    ensures multiset(all)[all[i]] > 1
  {
    assert all == all[..j] + all[j..];
    assert all[..j][i] in all[..j] && all[j..][0] in all[j..];
  }

  lemma DependencyIsPrerequisite(steps: seq<Step>, adj: Adjacency<string>, k: nat)
    requires DependenciesNamed(steps) && IsGraphOf(steps, adj) && k < |steps| && steps[k].dependsOn != []
    ensures Preds(Elements(NamesOf(steps)), adj, steps[k].name) != {}
  {
    NamesAreElements(steps);
    var d := steps[k].dependsOn[0];
    assert d in steps[k].dependsOn && steps[k] in steps;
    assert DependsOn(steps, steps[k].name, d);
    assert d in Preds(Elements(NamesOf(steps)), adj, steps[k].name);
  }

  lemma PrerequisiteIsDependency(steps: seq<Step>, adj: Adjacency<string>, n: string, m: string) returns (k: nat)
    requires IsGraphOf(steps, adj) && n in Out(adj, m)
    ensures k < |steps| && steps[k].name == n && m in steps[k].dependsOn
  {
    assert DependsOn(steps, n, m);
    var s :| s in steps && s.name == n && m in s.dependsOn;
    k :| 0 <= k < |steps| && steps[k] == s;
  }

  const A := Step("a", "", [], "", false)
  const B := Step("b", "", ["a"], "", false)

  /** Steps that depend on themselves. */
  const C := Step("c", "", ["c"], "", false)

  /** With cycles the condition is not necessary: two steps c that depend on c are sorted, since the first
      round drops that dependency. */
  lemma RepeatedCycleExample(steps: seq<Step>, index: map<string, int>, graphs: seq<Adjacency<string>>, order: seq<string>)
    requires IsSortOf(steps, index, graphs, order) && steps == [C, C]
    ensures |order| == |steps| && !RepeatedAreFree(steps)
  {
    assert steps[0].name == steps[1].name && steps[0].dependsOn != [];
    var all := NamesOf(steps);
    var deg :| IsGraph(Elements(all), graphs[0], deg);
    LoopIsDropped(all, index, graphs, order, deg, "c");
  }

  lemma LoopIsDropped<N(!new)>(all: seq<N>, index: map<N, int>, graphs: seq<Adjacency<N>>, order: seq<N>, deg: Degrees<N>, c: N)
    requires all == [c, c] && Elements(all) <= index.Keys && IsSort(all, index, graphs, order)
    requires IsGraph(Elements(all), graphs[0], deg)
    ensures |order| == |all|
  {
    // Every graph is without edges or has the loop; with the loop nothing but an empty pass is possible.
    var last := graphs[|graphs| - 1];
    assert Elements(order) == {c} by { ListedFits(all, last, index, order); }
    forall n ensures RootIfRepeated(all, last, n) {
      if c in Out(last, c) && n == c { LoopIsStuck(all, last, index, order, c); assert false; }
    }
    CompleteIff(all, last, index, order);
  }

  lemma LoopIsStuck<N(!new)>(all: seq<N>, adj: Adjacency<N>, index: map<N, int>, order: seq<N>, c: N)
    requires all == [c, c] && Elements(all) <= index.Keys && ListsLowest(all, adj, index, order) && c in Out(adj, c)
    ensures order == []
  {
    LoopBlocks(all, adj, c);
    assert order[..0] == [];
    if order != [] {
      ListsPrefix(all, adj, index, order, 0);
      assert false;
    }
  }

  lemma LoopBlocks<N(!new)>(all: seq<N>, adj: Adjacency<N>, c: N)
    requires all == [c, c] && c in Out(adj, c)
    ensures Pending(all, adj, []) == {}
  {
    assert c in Preds(Elements(all), adj, c);
  }

  /** So it does not end for a and two steps b that depend on it, and does for two steps a. */
  lemma RepeatedNameExample(steps: seq<Step>, index: map<string, int>, graphs: seq<Adjacency<string>>, order: seq<string>)
    requires IsSortOf(steps, index, graphs, order) && (steps == [A, B, B] || steps == [A, A])
    ensures |order| == |steps| <==> steps == [A, A]
  {
    if steps == [A, A] {
      OrderOfA(steps, ["a"]);
      EndsIff(steps, index, graphs, order, ["a"]);
    } else {
      OrderOfA(steps, ["a", "b"]);
      EndsIff(steps, index, graphs, order, ["a", "b"]);
      assert steps[1] == steps[2] == B;
    }
  }

  lemma OrderOfA(steps: seq<Step>, some: seq<string>)
    requires (steps == [A, A] && some == ["a"]) || (steps == [A, B, B] && some == ["a", "b"])
    ensures Distinct(some) && Elements(some) == NameSet(steps) && RespectsDependencies(steps, some)
  {
    assert A in steps && (|some| == 2 ==> B in steps);
    assert Elements(some) == NameSet(steps);
    FromA(steps, some);
  }

  lemma FromA(steps: seq<Step>, some: seq<string>)
    requires some == ["a"] || some == ["a", "b"]
    requires forall s | s in steps :: s == A || s == B
    ensures RespectsDependencies(steps, some)
  {
    forall a, b, k | 0 <= k < |some| && some[k] == b && DependsOn(steps, b, a) ensures a in some[..k] {
      var s :| s in steps && s.name == b && a in s.dependsOn;
      assert s == B && a == "a" && k == 1 && some[..1] == ["a"];
    }
  }

  // --- a dependency on no cycle that is overtaken ---

  const OVERTAKEN := [Step("a", "", ["b"], "", false), Step("b", "", ["a", "z"], "", false),
                      Step("c", "", ["b"], "", false), Step("z", "", [], "", false)]

  /** c comes out first, before b, on which it depends, though that dependency is on no cycle. */
  lemma OvertakenExample(index: map<string, int>, graphs: seq<Adjacency<string>>, order: seq<string>)
    requires IsSortOf(OVERTAKEN, index, graphs, order)
    ensures order == ["c", "z", "b", "a"]
    ensures DependsOn(OVERTAKEN, "c", "b") && !OnCycle(graphs[0], "b", "c")
  {
    var deg :| IsGraph(Elements(NamesOf(OVERTAKEN)), graphs[0], deg);
    FourNames(index);
    OvertakenEdges(graphs[0]);
    assert OVERTAKEN[2] in OVERTAKEN && "b" in OVERTAKEN[2].dependsOn;
    DependencyIsOvertaken(NamesOf(OVERTAKEN), index, graphs, deg, order, "a", "b", "c", "z");
  }

  lemma FourNames(index: map<string, int>)
    requires IsIndex(OVERTAKEN, index)
    ensures InOrder(NamesOf(OVERTAKEN), index, "a", "b", "c", "z")
  {
    NamesAreElements(OVERTAKEN);
    var all := NamesOf(OVERTAKEN);
    assert all[0] == "a" && all[1] == "b" && all[2] == "c" && all[3] == "z";
    forall k | 0 <= k < 4 ensures all[k] in index && index[all[k]] == k {
      OvertakenPosition(index, k);
    }
    assert all == ["a", "b", "c", "z"];
  }

  lemma OvertakenPosition(index: map<string, int>, k: nat)
    requires IsIndex(OVERTAKEN, index) && k < 4
    ensures NamesOf(OVERTAKEN)[k] in index && index[NamesOf(OVERTAKEN)[k]] == k
  {
    OvertakenAreDistinct();
    PositionIsIndex(OVERTAKEN, index, k);
    assert NamesOf(OVERTAKEN)[k] == OVERTAKEN[k].name;
  }

  lemma OvertakenAreDistinct()
    ensures DistinctSteps(OVERTAKEN)
  {
    assert OVERTAKEN[0].name == "a" && OVERTAKEN[1].name == "b" && OVERTAKEN[2].name == "c" && OVERTAKEN[3].name == "z";
  }

  lemma OvertakenEdges(adj: Adjacency<string>)
    requires IsGraphOf(OVERTAKEN, adj)
    ensures Overtakes(adj, "a", "b", "c", "z")
  {
    forall m, n ensures n in Out(adj, m) <==>
      (m == "b" && n == "a") || (m == "a" && n == "b") || (m == "z" && n == "b") || (m == "b" && n == "c")
    {
      OvertakenDependencies(n, m);
    }
  }

  lemma OvertakenDependencies(n: string, m: string)
    ensures DependsOn(OVERTAKEN, n, m) <==>
      (m == "b" && n == "a") || (m == "a" && n == "b") || (m == "z" && n == "b") || (m == "b" && n == "c")
  {
    assert forall s :: s in OVERTAKEN <==> s == OVERTAKEN[0] || s == OVERTAKEN[1] || s == OVERTAKEN[2] || s == OVERTAKEN[3];
  }
}
