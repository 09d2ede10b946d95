/** Repeated steps without dependencies are listed as often as they occur, and each copy counts its
    dependents down.  A dependent of several steps can therefore come out before one of them. */
module RepeatedSteps {
  import opened StepGraph
  import opened KahnPass

  /** The last position of each name. */
  predicate IsPositions<N(==,!new)>(all: seq<N>, index: map<N, int>) {
    && index.Keys == Elements(all)
    && (forall n | n in index :: 0 <= index[n] < |all| && all[index[n]] == n)
    && (forall i | 0 <= i < |all| :: all[i] in index && i <= index[all[i]])
  }

  /** n is listed after all its prerequisites. */
  ghost predicate ListedAfter<N(!new)>(all: seq<N>, adj: Adjacency<N>, order: seq<N>, n: N) {
    forall k: nat | k < |order| && order[k] == n :: Preds(Elements(all), adj, n) <= Elements(order[..k])
  }

  /** n is listed after all its prerequisites in whatever order the steps are given. */
  ghost predicate AlwaysAfter<N(!new)>(all: seq<N>, adj: Adjacency<N>, n: N) {
    forall given, index, order {:trigger PassFor(all, adj, n, given, index, order)} |
      PassFor(all, adj, n, given, index, order) :: ListedAfter(given, adj, order, n)
  }

  /** A pass over the steps in some other order. */
  ghost predicate PassFor<N(!new)>(all: seq<N>, adj: Adjacency<N>, n: N, given: seq<N>, index: map<N, int>, order: seq<N>) {
    multiset(given) == multiset(all) && IsPositions(given, index) && IsPassOf(given, adj, index, order)
  }

  /** None of several prerequisites is repeated. */
  ghost predicate CountsOnce<N(!new)>(all: seq<N>, adj: Adjacency<N>, n: N) {
    Prerequisites(all, adj, n) > 1 ==> forall m | m in Preds(Elements(all), adj, n) :: multiset(all)[m] == 1
  }

  // --- passes exist ---

  lemma LowestOf<N(!new)>(names: set<N>, index: map<N, int>) returns (n: N)
    requires names != {} && names <= index.Keys
    ensures n in names && forall m | m in names :: index[n] <= index[m]
  {
    n :| n in names;
    if names != {n} {
      var rest := names - {n};
      var m := LowestOf(rest, index);
      if index[m] < index[n] { n := m; }
    }
  }

  lemma PassExists<N(!new)>(all: seq<N>, adj: Adjacency<N>, index: map<N, int>, order: seq<N>) returns (pass: seq<N>)
    requires Elements(all) <= index.Keys && ListsLowest(all, adj, index, order)
    ensures IsPassOf(all, adj, index, pass)
    decreases |all| - |order|
  {
    ListedFits(all, adj, index, order);
    if Pending(all, adj, order) == {} {
      pass := order;
    } else {
      var n := LowestOf(Pending(all, adj, order), index);
      ListGrows(all, adj, index, order, n);
      ListedFits(all, adj, index, order + [n]);
      pass := PassExists(all, adj, index, order + [n]);
    }
  }

  lemma {:induction false} PositionsExist<N(!new)>(all: seq<N>) returns (index: map<N, int>)
    ensures IsPositions(all, index)
  {
    if all == [] {
      index := map[];
    } else {
      var front, last := all[..|all| - 1], all[|all| - 1];
      var before := PositionsExist(front);
      index := before[last := |all| - 1];
      assert all == front + [last];
      assert Elements(all) == Elements(front) + {last};
    }
  }

  // --- after all, if none of several is repeated ---

  lemma OneIsEnough<N(!new)>(all: seq<N>, adj: Adjacency<N>, index: map<N, int>, order: seq<N>, k: nat)
    requires Elements(all) <= index.Keys && ListsLowest(all, adj, index, order) && k < |order|
    requires Prerequisites(all, adj, order[k]) <= 1
    ensures Preds(Elements(all), adj, order[k]) <= Elements(order[..k])
  {
    var n, front := order[k], order[..k];
    ListsPrefix(all, adj, index, order, k);
    ListedFits(all, adj, index, front);
    if p :| p in Preds(Elements(all), adj, n) && p !in front {
      OnlyElement(Preds(Elements(all), adj, n), p);
      NoHits(Elements(all), adj, front, n, p);
      assert false;
    }
  }

  lemma OnlyElement<N(!new)>(s: set<N>, x: N)
    requires |s| <= 1 && x in s
    ensures s == {x}
  {
    assert |s - {x}| == 0;
    forall y | y in s ensures y == x { assert y !in s - {x}; }
  }

  lemma {:induction false} NoHits<N(!new)>(names: set<N>, adj: Adjacency<N>, order: seq<N>, n: N, p: N)
    requires Elements(order) <= names && Preds(names, adj, n) == {p} && p !in order
    ensures Hits(adj, order, n) == 0
  {
    if order != [] {
      var front, last := order[..|order| - 1], order[|order| - 1];
      assert order == front + [last] && last in Elements(order) && Elements(front) <= Elements(order);
      NoHits(names, adj, front, n, p);
      assert n in Out(adj, last) ==> last in Preds(names, adj, n);
    }
  }

  // --- before one of them, if the copies of another count in its place ---

  /** Two copies of m count once more than there are prerequisites listed. */
  lemma {:induction false} CopiesCountTwice<N(!new)>(names: set<N>, adj: Adjacency<N>, order: seq<N>, n: N, m: N)
    requires m in Preds(names, adj, n) && multiset(order)[m] > 1
    ensures Hits(adj, order, n) > |Preds(names, adj, n) * Elements(order)|
  {
    var front, last := order[..|order| - 1], order[|order| - 1];
    assert order == front + [last];
    OneMoreListed(Preds(names, adj, n), front, last);
    if multiset(front)[m] > 1 {
      CopiesCountTwice(names, adj, front, n, m);
    } else {
      assert last == m && m in multiset(front);
      assert Elements(order) == Elements(front);
      HitsByPredecessors(names, adj, front, n);
    }
  }

  /** x is listed if its prerequisites are and it is not pending. */
  lemma ListedOnceOwed<N(!new)>(all: seq<N>, adj: Adjacency<N>, front: seq<N>, x: N)
    requires x in all && Preds(Elements(all), adj, x) <= Elements(front) && x !in Pending(all, adj, front)
    ensures x in front
  {
    HitsByPredecessors(Elements(all), adj, front, x);
    AllListedIff(Preds(Elements(all), adj, x), Elements(front));
    assert multiset(front)[x] > 0;
  }

  /** When the pass takes p though it is the last in position, everything that need not wait for p is listed. */
  lemma AllBeforeListed<N(!new)>(all: seq<N>, adj: Adjacency<N>, front: seq<N>, some: seq<N>, t: nat)
    requires IsTopological(Elements(all), adj, some) && t < |some| && Pending(all, adj, front) <= {some[t]}
    ensures Elements(some[..t]) <= Elements(front)
  {
    for i := 0 to t
      invariant Elements(some[..i]) <= Elements(front)
    {
      assert some[i] in Elements(some) && Preds(Elements(all), adj, some[i]) <= Elements(some[..i]);
      ListedOnceOwed(all, adj, front, some[i]);
      assert some[..i + 1] == some[..i] + [some[i]];
    }
  }

  /** Then n is listed too, though p is one of its prerequisites. */
  lemma ListedWithout<N(!new)>(all: seq<N>, adj: Adjacency<N>, front: seq<N>, n: N, m: N, p: N)
    requires n in all && n != p && p !in front && Pending(all, adj, front) <= {p}
    requires m != p && m in Preds(Elements(all), adj, n) && Preds(Elements(all), adj, m) == {} && multiset(all)[m] > 1
    requires p in Preds(Elements(all), adj, n) && Preds(Elements(all), adj, n) - {m, p} <= Elements(front)
    ensures n in front
  {
    var preds := Preds(Elements(all), adj, n);
    assert m !in Pending(all, adj, front) && multiset(front)[m] > 1;
    assert m in front;
    assert preds * Elements(front) == preds - {p};
    CopiesCountTwice(Elements(all), adj, front, n, m);
    assert n !in Pending(all, adj, front) && multiset(front)[n] > 0;
  }

  lemma FirstPosition<N(!new)>(order: seq<N>, p: N) returns (k: nat)
    requires p in order
    ensures k < |order| && order[k] == p && p !in order[..k]
  {
    k := 0;
    while order[k] != p
      invariant k < |order| && p !in order[..k]
      decreases |order| - k
    {
      assert p in order[k + 1..] by { assert order == order[..k] + [order[k]] + order[k + 1..]; }
      assert order[..k + 1] == order[..k] + [order[k]];
      k := k + 1;
    }
  }

  /** The steps are given with p at the end. */
  lemma OvertakesLast<N(!new)>(all: seq<N>, adj: Adjacency<N>, index: map<N, int>, order: seq<N>, some: seq<N>,
                               n: N, m: N, t: nat)
    requires IsPositions(all, index) && IsPassOf(all, adj, index, order) && IsTopological(Elements(all), adj, some)
    requires n in all && t < |some| && all[|all| - 1] == some[t] && m != some[t]
    requires m in Preds(Elements(all), adj, n) && Preds(Elements(all), adj, m) == {} && multiset(all)[m] > 1
    requires some[t] in Preds(Elements(all), adj, n) && Preds(Elements(all), adj, n) - {m, some[t]} <= Elements(some[..t])
    ensures !ListedAfter(all, adj, order, n)
  {
    var p := some[t];
    AcyclicListsAll(all, adj, index, order, some);
    assert p in Elements(order);
    var k := FirstPosition(order, p);
    ListsPrefix(all, adj, index, order, k);
    OnlyLastPending(all, adj, index, order[..k], p);
    AllBeforeListed(all, adj, order[..k], some, t);
    NotItsOwnPrerequisite(Elements(all), adj, some, n);
    ListedWithout(all, adj, order[..k], n, m, p);
    var i :| 0 <= i < k && order[..k][i] == n;
    assert p !in order[..i] by { assert order[..i] == order[..k][..i]; }
    assert order[i] == n && p !in Elements(order[..i]);
  }

  lemma OnlyLastPending<N(!new)>(all: seq<N>, adj: Adjacency<N>, index: map<N, int>, front: seq<N>, p: N)
    requires all != [] && IsPositions(all, index) && all[|all| - 1] == p && IsNext(all, adj, index, front, p)
    ensures Pending(all, adj, front) <= {p}
  {
    forall x | x in Pending(all, adj, front) ensures x == p {
      assert x in index && index[p] <= index[x];
    }
  }

  lemma NotItsOwnPrerequisite<N(!new)>(names: set<N>, adj: Adjacency<N>, some: seq<N>, n: N)
    requires IsTopological(names, adj, some) && n in names
    ensures n !in Preds(names, adj, n)
  {
    assert n in Elements(some);
    var j :| 0 <= j < |some| && some[j] == n;
    assert Preds(names, adj, some[j]) <= Elements(some[..j]);
  }

  /** The last in order of the names in a set. */
  lemma LastIn<N(!new)>(some: seq<N>, names: set<N>) returns (t: nat)
    requires names != {} && names <= Elements(some)
    ensures t < |some| && some[t] in names && names - {some[t]} <= Elements(some[..t])
  {
    t := |some|;
    while t == |some| || some[t] !in names
      invariant t <= |some| && names <= Elements(some[..t]) + if t < |some| then {some[t]} else {}
      decreases t
    {
      assert names <= Elements(some[..t]) by { assert t == |some| ==> some[..t] == some; }
      if t == 0 {
        assert false;
      }
      assert some[..t] == some[..t - 1] + [some[t - 1]];
      t := t - 1;
    }
  }

  lemma MoveToEnd<N(!new)>(all: seq<N>, p: N) returns (given: seq<N>)
    requires p in all
    ensures given != [] && given[|given| - 1] == p && multiset(given) == multiset(all) && Elements(given) == Elements(all)
  {
    var i :| 0 <= i < |all| && all[i] == p;
    given := all[..i] + all[i + 1..] + [p];
    assert all == all[..i] + [p] + all[i + 1..];
    SameElements(given, all);
  }

  lemma SameElements<N(!new)>(x: seq<N>, y: seq<N>)
    requires multiset(x) == multiset(y)
    ensures Elements(x) == Elements(y)
  {
    forall n ensures n in x <==> n in y { assert n in multiset(x) <==> n in multiset(y); }
  }

  lemma HasAnother<N(!new)>(s: set<N>, x: N)
    requires |s| > 1
    ensures s - {x} != {}
  {
    assert s == (s - {x}) + (s * {x});
    assert s * {x} == if x in s then {x} else {};
  }

  lemma SomeOrderOvertakes<N(!new)>(all: seq<N>, adj: Adjacency<N>, some: seq<N>, n: N)
    requires IsTopological(Elements(all), adj, some) && RepeatedAreRoots(all, adj) && n in all && !CountsOnce(all, adj, n)
    ensures !AlwaysAfter(all, adj, n)
  {
    var preds := Preds(Elements(all), adj, n);
    var m :| m in preds && multiset(all)[m] != 1;
    assert m in all && multiset(all)[m] > 1 && RootIfRepeated(all, adj, m);
    HasAnother(preds, m);
    var t := LastIn(some, preds - {m});
    var given := MoveToEnd(all, some[t]);
    var index := PositionsExist(given);
    var order := PassExists(given, adj, index, []);
    assert PassFor(all, adj, n, given, index, order);
    assert n in Elements(given) && preds - {m, some[t]} == preds - {m} - {some[t]};
    OvertakesLast(given, adj, index, order, some, n, m, t);
  }

  /** If some order respects all dependencies and the sort ends, a step comes out after all its
      dependencies whatever order the steps are given in if and only if it has one at most or none of
      them is repeated. */
  lemma AlwaysAfterIff<N(!new)>(all: seq<N>, adj: Adjacency<N>, some: seq<N>, n: N)
    requires IsTopological(Elements(all), adj, some) && RepeatedAreRoots(all, adj) && n in all
    ensures AlwaysAfter(all, adj, n) <==> CountsOnce(all, adj, n)
  {
    if CountsOnce(all, adj, n) {
      forall given, index, order | PassFor(all, adj, n, given, index, order) ensures ListedAfter(given, adj, order, n) {
        SameElements(given, all);
        forall k: nat | k < |order| && order[k] == n ensures Preds(Elements(given), adj, n) <= Elements(order[..k]) {
          if Prerequisites(given, adj, n) <= 1 {
            OneIsEnough(given, adj, index, order, k);
          } else {
            ListedAfterUnrepeated(given, adj, index, order, k);
          }
        }
      }
    } else {
      SomeOrderOvertakes(all, adj, some, n);
    }
  }
}
