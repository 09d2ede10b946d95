/** What one pass of Kahn's algorithm lists, if names may be repeated: the queue starts with every
    copy of a name without prerequisites, each copy counts its successors down, and a successor is
    queued when its counter reaches zero. */
module KahnPass {
  import opened StepGraph

  /** How often n has been counted down. */
  function Hits<N(==,!new)>(adj: Adjacency<N>, order: seq<N>, n: N): nat {
    if order == [] then 0
    else Hits(adj, order[..|order| - 1], n) + if n in Out(adj, order[|order| - 1]) then 1 else 0
  }

  function Prerequisites<N(==,!new)>(all: seq<N>, adj: Adjacency<N>, n: N): nat {
    |Preds(Elements(all), adj, n)|
  }

  /** How often n has been queued when the nodes of order have been listed. */
  function Owed<N(==,!new)>(all: seq<N>, adj: Adjacency<N>, order: seq<N>, n: N): nat {
    if Prerequisites(all, adj, n) == 0 then multiset(all)[n]
    else if Hits(adj, order, n) >= Prerequisites(all, adj, n) then 1 else 0
  }

  /** The nodes that are queued and not yet listed. */
  function Pending<N(==,!new)>(all: seq<N>, adj: Adjacency<N>, order: seq<N>): set<N> {
    set n | n in all && multiset(order)[n] < Owed(all, adj, order, n)
  }

  predicate IsNext<N(==,!new)>(all: seq<N>, adj: Adjacency<N>, index: map<N, int>, order: seq<N>, n: N)
    requires Elements(all) <= index.Keys
  {
    n in Pending(all, adj, order) && forall m | m in Pending(all, adj, order) :: index[n] <= index[m]
  }

  /** Each listed node was the pending one of lowest index. */
  predicate ListsLowest<N(==,!new)>(all: seq<N>, adj: Adjacency<N>, index: map<N, int>, order: seq<N>)
    requires Elements(all) <= index.Keys
  {
    forall k: nat {:trigger NextAt(all, adj, index, order, k)} | k < |order| :: NextAt(all, adj, index, order, k)
  }

  predicate NextAt<N(==,!new)>(all: seq<N>, adj: Adjacency<N>, index: map<N, int>, order: seq<N>, k: nat)
    requires Elements(all) <= index.Keys && k < |order|
  {
    IsNext(all, adj, index, order[..k], order[k])
  }

  predicate IsPassOf<N(==,!new)>(all: seq<N>, adj: Adjacency<N>, index: map<N, int>, order: seq<N>)
    requires Elements(all) <= index.Keys
  {
    ListsLowest(all, adj, index, order) && Pending(all, adj, order) == {}
  }

  ghost predicate Injective<N(!new)>(names: set<N>, index: map<N, int>)
    requires names <= index.Keys
  {
    forall m, n | m in names && n in names && m != n :: index[m] != index[n]
  }

  // --- one step ---

  lemma HitsGrow<N(!new)>(adj: Adjacency<N>, order: seq<N>, m: N, n: N)
    ensures Hits(adj, order + [m], n) == Hits(adj, order, n) + if n in Out(adj, m) then 1 else 0
  {
    assert (order + [m])[..|order|] == order;
  }

  /** Listing m queues exactly the successors that were counted down to one. */
  lemma OwedAfter<N(!new)>(all: seq<N>, adj: Adjacency<N>, order: seq<N>, m: N, n: N)
    requires m in all
    ensures Owed(all, adj, order + [m], n) == Owed(all, adj, order, n) +
      if n in Out(adj, m) && Prerequisites(all, adj, n) - Hits(adj, order, n) == 1 then 1 else 0
  {
    HitsGrow(adj, order, m, n);
    if n in Out(adj, m) { assert m in Preds(Elements(all), adj, n); }
  }

  lemma ListGrows<N(!new)>(all: seq<N>, adj: Adjacency<N>, index: map<N, int>, order: seq<N>, n: N)
    requires Elements(all) <= index.Keys && ListsLowest(all, adj, index, order) && IsNext(all, adj, index, order, n)
    ensures ListsLowest(all, adj, index, order + [n])
  {
    var longer := order + [n];
    forall k: nat | k < |longer| ensures NextAt(all, adj, index, longer, k) {
      assert longer[..k] == order[..k];
      if k == |order| { assert order[..k] == order; } else { assert NextAt(all, adj, index, order, k); }
    }
  }

  /** No node is listed more often than it was queued, and so not more often than it has copies. */
  lemma {:induction false} ListedIsOwed<N(!new)>(all: seq<N>, adj: Adjacency<N>, index: map<N, int>, order: seq<N>, n: N)
    requires Elements(all) <= index.Keys && ListsLowest(all, adj, index, order)
    ensures multiset(order)[n] <= Owed(all, adj, order, n) || n !in order
    ensures n in order ==> n in all
    ensures multiset(order)[n] <= multiset(all)[n]
  {
    if order != [] {
      var front, last := order[..|order| - 1], order[|order| - 1];
      ListsPrefix(all, adj, index, order, |front|);
      ListedIsOwed(all, adj, index, front, n);
      ListedNext(all, adj, front, last, n);
      assert order == front + [last];
    }
  }

  lemma ListedNext<N(!new)>(all: seq<N>, adj: Adjacency<N>, front: seq<N>, last: N, n: N)
    requires last in Pending(all, adj, front)
    requires multiset(front)[n] <= Owed(all, adj, front, n) || n !in front
    requires n in front ==> n in all
    requires multiset(front)[n] <= multiset(all)[n]
    ensures var order := front + [last];
      && (multiset(order)[n] <= Owed(all, adj, order, n) || n !in order)
      && (n in order ==> n in all) && multiset(order)[n] <= multiset(all)[n]
  {
    OwedAfter(all, adj, front, last, n);
    assert multiset(front + [last])[n] == multiset(front)[n] + if n == last then 1 else 0;
    assert Owed(all, adj, front, last) <= multiset(all)[last];
  }

  lemma ListsPrefix<N(!new)>(all: seq<N>, adj: Adjacency<N>, index: map<N, int>, order: seq<N>, k: nat)
    requires Elements(all) <= index.Keys && ListsLowest(all, adj, index, order) && k <= |order|
    ensures ListsLowest(all, adj, index, order[..k])
    ensures k < |order| ==> IsNext(all, adj, index, order[..k], order[k])
  {
    forall i: nat | i < k ensures NextAt(all, adj, index, order[..k], i) {
      assert NextAt(all, adj, index, order, i);
      assert order[..k][..i] == order[..i] && order[..k][i] == order[i];
    }
    if k < |order| { assert NextAt(all, adj, index, order, k); }
  }

  lemma ListedFits<N(!new)>(all: seq<N>, adj: Adjacency<N>, index: map<N, int>, order: seq<N>)
    requires Elements(all) <= index.Keys && ListsLowest(all, adj, index, order)
    ensures multiset(order) <= multiset(all) && |order| <= |all| && Elements(order) <= Elements(all)
    ensures |order| == |all| <==> multiset(order) == multiset(all)
  {
    forall n { ListedIsOwed(all, adj, index, order, n); }
    assert multiset(order) <= multiset(all);
    FewerOrEqual(multiset(order), multiset(all));
    assert |multiset(order)| == |order| && |multiset(all)| == |all|;
  }

  lemma FewerOrEqual<N>(a: multiset<N>, b: multiset<N>)
    requires a <= b
    ensures |a| <= |b| && (|a| == |b| <==> a == b)
  {
    assert b == a + (b - a);
    if |a| == |b| { assert |b - a| == 0; assert b - a == multiset{}; }
  }

  // --- determinacy ---

  /** The order of the adjacency lists does not matter. */
  ghost predicate SameEdges<N(!new)>(adj: Adjacency<N>, adj': Adjacency<N>) {
    forall m, n :: n in Out(adj, m) <==> n in Out(adj', m)
  }

  lemma {:induction false} SameHits<N(!new)>(adj: Adjacency<N>, adj': Adjacency<N>, order: seq<N>, n: N)
    requires SameEdges(adj, adj')
    ensures Hits(adj, order, n) == Hits(adj', order, n)
  {
    if order != [] { SameHits(adj, adj', order[..|order| - 1], n); }
  }

  lemma SamePending<N(!new)>(all: seq<N>, adj: Adjacency<N>, adj': Adjacency<N>, order: seq<N>)
    requires SameEdges(adj, adj')
    ensures Pending(all, adj, order) == Pending(all, adj', order)
  {
    forall n ensures Owed(all, adj, order, n) == Owed(all, adj', order, n) {
      SameHits(adj, adj', order, n);
      assert Preds(Elements(all), adj, n) == Preds(Elements(all), adj', n);
    }
  }

  lemma {:induction false} SamePrefix<N(!new)>(all: seq<N>, adj: Adjacency<N>, adj': Adjacency<N>, index: map<N, int>,
                                               x: seq<N>, y: seq<N>, k: nat)
    requires Elements(all) <= index.Keys && Injective(Elements(all), index) && SameEdges(adj, adj')
    requires ListsLowest(all, adj, index, x) && ListsLowest(all, adj', index, y) && k <= |x| && k <= |y|
    ensures x[..k] == y[..k]
  {
    if k > 0 {
      SamePrefix(all, adj, adj', index, x, y, k - 1);
      ListsPrefix(all, adj, index, x, k - 1);
      ListsPrefix(all, adj', index, y, k - 1);
      SameNext(all, adj, adj', index, x[..k - 1], x[k - 1], y[k - 1]);
      assert x[..k] == x[..k - 1] + [x[k - 1]] && y[..k] == y[..k - 1] + [y[k - 1]];
    }
  }

  lemma SameNext<N(!new)>(all: seq<N>, adj: Adjacency<N>, adj': Adjacency<N>, index: map<N, int>, order: seq<N>, m: N, n: N)
    requires Elements(all) <= index.Keys && Injective(Elements(all), index) && SameEdges(adj, adj')
    requires IsNext(all, adj, index, order, m) && IsNext(all, adj', index, order, n)
    ensures m == n
  {
    SamePending(all, adj, adj', order);
    assert m in Elements(all) && n in Elements(all);
  }

  /** A graph has one pass: what is listed depends on nothing but edges, copies and positions. */
  lemma PassIsUnique<N(!new)>(all: seq<N>, adj: Adjacency<N>, adj': Adjacency<N>, index: map<N, int>, x: seq<N>, y: seq<N>)
    requires Elements(all) <= index.Keys && Injective(Elements(all), index) && SameEdges(adj, adj')
    requires IsPassOf(all, adj, index, x) && IsPassOf(all, adj', index, y)
    ensures x == y
  {
    var k := if |x| < |y| then |x| else |y|;
    SamePrefix(all, adj, adj', index, x, y, k);
    assert x[..|x|] == x && y[..|y|] == y;
    SamePending(all, adj, adj', x);
    SamePending(all, adj, adj', y);
    ListsPrefix(all, adj', index, y, k);
    ListsPrefix(all, adj, index, x, k);
  }

  // --- stuck nodes ---

  /** Every listed predecessor has counted n down. */
  lemma {:induction false} HitsByPredecessors<N(!new)>(names: set<N>, adj: Adjacency<N>, order: seq<N>, n: N)
    ensures |Preds(names, adj, n) * Elements(order)| <= Hits(adj, order, n)
  {
    if order == [] {
      assert Preds(names, adj, n) * Elements(order) == {};
    } else {
      var front, last := order[..|order| - 1], order[|order| - 1];
      assert order == front + [last];
      HitsByPredecessors(names, adj, front, n);
      OneMoreListed(Preds(names, adj, n), front, last);
    }
  }

  /** Once for each, if none was listed twice. */
  lemma {:induction false} HitsOncePerPredecessor<N(!new)>(names: set<N>, adj: Adjacency<N>, order: seq<N>, n: N)
    requires Elements(order) <= names && forall m | m in Preds(names, adj, n) :: multiset(order)[m] <= 1
    ensures |Preds(names, adj, n) * Elements(order)| == Hits(adj, order, n)
  {
    var p := Preds(names, adj, n);
    if order == [] {
      assert p * Elements(order) == {};
    } else {
      var front, last := order[..|order| - 1], order[|order| - 1];
      assert order == front + [last];
      OneMoreCounted(p, order, front, last);
      HitsOncePerPredecessor(names, adj, front, n);
      assert last in names;
    }
  }

  lemma OneMoreCounted<N(!new)>(p: set<N>, order: seq<N>, front: seq<N>, last: N)
    requires order == front + [last] && forall m | m in p :: multiset(order)[m] <= 1
    ensures forall m | m in p :: multiset(front)[m] <= 1
    ensures Elements(front) <= Elements(order) && last in Elements(order)
    ensures |p * Elements(order)| == |p * Elements(front)| + if last in p then 1 else 0
  {
    forall m ensures multiset(order)[m] == multiset(front)[m] + if m == last then 1 else 0 {}
    if last in p { assert multiset(order)[last] <= 1; }
    OneMoreListed(p, front, last);
    assert last in p ==> last !in front;
    if last !in p {
      assert p * Elements(order) == p * Elements(front);
    }
  }

  lemma OneMoreListed<N(!new)>(p: set<N>, front: seq<N>, last: N)
    ensures |p * Elements(front + [last])| <= |p * Elements(front)| + if last in p then 1 else 0
    ensures last !in front ==> |p * Elements(front + [last])| == |p * Elements(front)| + if last in p then 1 else 0
    ensures Elements(front) <= Elements(front + [last]) && last in Elements(front + [last])
  {
    assert Elements(front + [last]) == Elements(front) + {last};
    assert p * Elements(front + [last]) == p * Elements(front) + if last in p then {last} else {};
  }

  /** Every node that a pass does not list has a predecessor that it does not list. */
  lemma StuckHasStuck<N(!new)>(all: seq<N>, adj: Adjacency<N>, index: map<N, int>, order: seq<N>, n: N) returns (m: N)
    requires Elements(all) <= index.Keys && IsPassOf(all, adj, index, order) && n in all && n !in order
    ensures m in all && m !in order && n in Out(adj, m) && m in Preds(Elements(all), adj, n)
  {
    var p := Preds(Elements(all), adj, n);
    assert multiset(order)[n] == 0 && n !in Pending(all, adj, order) && multiset(all)[n] > 0;
    HitsByPredecessors(Elements(all), adj, order, n);
    AllListedIff(p, Elements(order));
    m :| m in p && m !in Elements(order);
  }

  /** On an acyclic graph a pass lists every name. */
  lemma AcyclicListsAll<N(!new)>(all: seq<N>, adj: Adjacency<N>, index: map<N, int>, order: seq<N>, some: seq<N>)
    requires Elements(all) <= index.Keys && IsPassOf(all, adj, index, order) && IsTopological(Elements(all), adj, some)
    ensures Elements(order) == Elements(all)
  {
    ListedFits(all, adj, index, order);
    for k := 0 to |some|
      invariant Elements(some[..k]) <= Elements(order)
    {
      assert some[k] in Elements(some) && Preds(Elements(all), adj, some[k]) <= Elements(some[..k]);
      if some[k] !in order {
        var m := StuckHasStuck(all, adj, index, order, some[k]);
        assert false;
      }
      assert some[..k + 1] == some[..k] + [some[k]];
    }
    assert some[..|some|] == some;
  }

  /** Every repeated name is without prerequisites. */
  ghost predicate RepeatedAreRoots<N(!new)>(all: seq<N>, adj: Adjacency<N>) {
    forall n {:trigger RootIfRepeated(all, adj, n)} :: RootIfRepeated(all, adj, n)
  }

  ghost predicate RootIfRepeated<N(!new)>(all: seq<N>, adj: Adjacency<N>, n: N) {
    n in all && multiset(all)[n] > 1 ==> Preds(Elements(all), adj, n) == {}
  }

  /** A pass lists as many nodes as there are exactly if nothing is stuck and every repeated name is
      without prerequisites: any other repeated name it lists once only. */
  lemma CompleteIff<N(!new)>(all: seq<N>, adj: Adjacency<N>, index: map<N, int>, order: seq<N>)
    requires Elements(all) <= index.Keys && IsPassOf(all, adj, index, order)
    ensures |order| == |all| <==> Elements(order) == Elements(all) && RepeatedAreRoots(all, adj)
  {
    ListedFits(all, adj, index, order);
    if |order| == |all| {
      forall n ensures n in order <==> n in all { assert n in multiset(order) <==> n in multiset(all); }
      forall n ensures RootIfRepeated(all, adj, n) {
        assert multiset(order)[n] == multiset(all)[n];
        ListedIsOwed(all, adj, index, order, n);
      }
    }
    if Elements(order) == Elements(all) && RepeatedAreRoots(all, adj) {
      forall n ensures multiset(order)[n] == multiset(all)[n] {
        ListedOften(all, adj, index, order, n);
      }
    }
  }

  lemma ListedOften<N(!new)>(all: seq<N>, adj: Adjacency<N>, index: map<N, int>, order: seq<N>, n: N)
    requires Elements(all) <= index.Keys && IsPassOf(all, adj, index, order)
    requires Elements(order) == Elements(all) && RepeatedAreRoots(all, adj)
    ensures multiset(order)[n] == multiset(all)[n]
  {
    ListedIsOwed(all, adj, index, order, n);
    if n in all {
      assert n in Elements(order) && n !in Pending(all, adj, order);
      assert RootIfRepeated(all, adj, n);
    }
  }

  // --- names without copies ---

  /** If no name without prerequisites is repeated, a pass lists every name once at most, after all
      its predecessors. */
  lemma PassWithoutCopies<N(!new)>(all: seq<N>, adj: Adjacency<N>, index: map<N, int>, order: seq<N>)
    requires Elements(all) <= index.Keys && IsPassOf(all, adj, index, order)
    requires forall n | n in all && Preds(Elements(all), adj, n) == {} :: multiset(all)[n] == 1
    ensures IsPass(Elements(all), adj, index, order)
  {
    forall k | 0 <= k <= |order| ensures Ready(Elements(all), adj, Elements(order[..k])) == Pending(all, adj, order[..k]) {
      ListsPrefix(all, adj, index, order, k);
      ReadyIsPending(all, adj, index, order[..k]);
    }
    assert order[..|order|] == order;
    forall k | 0 <= k < |order|
      ensures order[k] in Ready(Elements(all), adj, Elements(order[..k]))
      ensures forall n | n in Ready(Elements(all), adj, Elements(order[..k])) :: index[order[k]] <= index[n]
    {
      assert NextAt(all, adj, index, order, k);
    }
  }

  lemma ReadyIsPending<N(!new)>(all: seq<N>, adj: Adjacency<N>, index: map<N, int>, order: seq<N>)
    requires Elements(all) <= index.Keys && ListsLowest(all, adj, index, order)
    requires forall n | n in all && Preds(Elements(all), adj, n) == {} :: multiset(all)[n] == 1
    ensures Ready(Elements(all), adj, Elements(order)) == Pending(all, adj, order)
  {
    ListedFits(all, adj, index, order);
    forall n ensures multiset(order)[n] <= 1 { AtMostOnce(all, adj, index, order, n); }
    forall n | n in all ensures n in Ready(Elements(all), adj, Elements(order)) <==> n in Pending(all, adj, order) {
      var p := Preds(Elements(all), adj, n);
      HitsOncePerPredecessor(Elements(all), adj, order, n);
      AllListedIff(p, Elements(order));
      AtMostOnce(all, adj, index, order, n);
      if p == {} { assert multiset(all)[n] == 1; }
    }
  }

  lemma AtMostOnce<N(!new)>(all: seq<N>, adj: Adjacency<N>, index: map<N, int>, order: seq<N>, n: N)
    requires Elements(all) <= index.Keys && ListsLowest(all, adj, index, order)
    requires forall n | n in all && Preds(Elements(all), adj, n) == {} :: multiset(all)[n] == 1
    ensures multiset(order)[n] <= 1
    ensures n in order ==> multiset(order)[n] == 1
  {
    ListedIsOwed(all, adj, index, order, n);
    if n in all && Preds(Elements(all), adj, n) == {} { assert multiset(all)[n] == 1; }
    if Prerequisites(all, adj, n) == 0 { assert Preds(Elements(all), adj, n) == {}; }
  }

  lemma AllListedIff<N>(p: set<N>, done: set<N>)
    ensures |p * done| >= |p| <==> p <= done
  {
    assert p == p * done + (p - done);
    if p <= done { assert p * done == p; }
    if |p * done| >= |p| {
      assert |p| == |p * done| + |p - done|;
      assert p - done == {};
      assert forall x | x in p :: x in done || x in p - done;
    }
  }

  /** A name is listed after all its prerequisites if none of these is repeated. */
  lemma ListedAfterUnrepeated<N(!new)>(all: seq<N>, adj: Adjacency<N>, index: map<N, int>, order: seq<N>, k: nat)
    requires Elements(all) <= index.Keys && ListsLowest(all, adj, index, order) && k < |order|
    requires forall m | m in Preds(Elements(all), adj, order[k]) :: multiset(all)[m] == 1
    ensures Preds(Elements(all), adj, order[k]) <= Elements(order[..k])
  {
    var p, front := Preds(Elements(all), adj, order[k]), order[..k];
    ListsPrefix(all, adj, index, order, k);
    ListedFits(all, adj, index, front);
    forall m | m in p ensures multiset(front)[m] <= 1 { assert multiset(all)[m] == 1; }
    HitsOncePerPredecessor(Elements(all), adj, front, order[k]);
    AllListedIff(p, Elements(front));
  }

  lemma NextFromReady<N(!new)>(all: seq<N>, adj: Adjacency<N>, index: map<N, int>, order: seq<N>, n: N)
    requires Elements(all) <= index.Keys && ListsLowest(all, adj, index, order)
    requires forall m | m in all && Preds(Elements(all), adj, m) == {} :: multiset(all)[m] == 1
    requires n in Ready(Elements(all), adj, Elements(order))
    requires forall m | m in Ready(Elements(all), adj, Elements(order)) :: index[n] <= index[m]
    ensures ListsLowest(all, adj, index, order + [n])
  {
    ReadyIsPending(all, adj, index, order);
    ListGrows(all, adj, index, order, n);
  }

  lemma {:induction false} LowestFirstIsListed<N(!new)>(all: seq<N>, adj: Adjacency<N>, index: map<N, int>, order: seq<N>)
    requires Elements(all) <= index.Keys && LowestFirst(Elements(all), adj, index, order)
    requires forall n | n in all && Preds(Elements(all), adj, n) == {} :: multiset(all)[n] == 1
    ensures ListsLowest(all, adj, index, order)
  {
    if order != [] {
      var front, last := order[..|order| - 1], order[|order| - 1];
      LowestFirstBefore(Elements(all), adj, index, order);
      LowestFirstIsListed(all, adj, index, front);
      NextFromReady(all, adj, index, front, last);
      assert order == front + [last];
    }
  }

  lemma LowestFirstBefore<N(!new)>(names: set<N>, adj: Adjacency<N>, index: map<N, int>, order: seq<N>)
    requires names <= index.Keys && LowestFirst(names, adj, index, order) && order != []
    ensures var front, last := order[..|order| - 1], order[|order| - 1];
      && LowestFirst(names, adj, index, front) && last in Ready(names, adj, Elements(front))
      && forall m | m in Ready(names, adj, Elements(front)) :: index[last] <= index[m]
  {
    var front := order[..|order| - 1];
    forall k | 0 <= k < |front|
      ensures front[k] in Ready(names, adj, Elements(front[..k]))
      ensures forall n | n in Ready(names, adj, Elements(front[..k])) :: index[front[k]] <= index[n]
    {
      assert front[..k] == order[..k] && front[k] == order[k];
    }
  }

  /** Without repeated names the passes are those of StepGraph. */
  lemma IsPassOfDistinct<N(!new)>(all: seq<N>, adj: Adjacency<N>, index: map<N, int>, order: seq<N>)
    requires Elements(all) <= index.Keys && IsPass(Elements(all), adj, index, order)
    requires forall n | n in all && Preds(Elements(all), adj, n) == {} :: multiset(all)[n] == 1
    ensures IsPassOf(all, adj, index, order)
  {
    LowestFirstIsListed(all, adj, index, order);
    ReadyIsPending(all, adj, index, order);
  }
}
