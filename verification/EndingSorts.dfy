/** When the sort of a playbook ends, whatever its cycles and repeated names, as a condition on the
    playbook: a repeated name comes out as often as it occurs exactly if all its dependencies are dropped. */
module EndingSorts {
  import opened StepGraph
  import opened KahnPass
  import opened Sequencer
  import opened CycleBreaking
  import opened RepeatedSteps

  function UpTo<N(==)>(s: seq<N>, index: map<N, int>, top: int): seq<N> {
    if s == [] then []
    else
      var last := s[|s| - 1];
      UpTo(s[..|s| - 1], index, top) + if last in index && index[last] <= top then [last] else []
  }

  lemma {:induction false} UpToElements<N(!new)>(s: seq<N>, index: map<N, int>, top: int, x: N)
    ensures x in UpTo(s, index, top) <==> x in s && x in index && index[x] <= top
  {
    if s != [] {
      var front, last := s[..|s| - 1], s[|s| - 1];
      UpToElements(front, index, top, x);
      assert s == front + [last];
    }
  }

  /** The graph without the edges into what is positioned after n. */
  function Cut<N(==,!new)>(adj: Adjacency<N>, index: map<N, int>, n: N): Adjacency<N>
    requires n in index
  {
    map m | m in adj :: UpTo(adj[m], index, index[n])
  }

  lemma PredsOfCut<N(!new)>(names: set<N>, adj: Adjacency<N>, index: map<N, int>, n: N, m: N)
    requires n in index && m in index
    ensures Preds(names, Cut(adj, index, n), m) == if index[m] <= index[n] then Preds(names, adj, m) else {}
  {
    forall p ensures m in Out(Cut(adj, index, n), p) <==> m in Out(adj, p) && index[m] <= index[n] {
      if p in adj { UpToElements(adj[p], index, index[n], m); }
    }
  }

  /** Nothing that n depends on comes out if what is positioned after n depended on nothing. */
  ghost predicate WaitsForStuck<N(!new)>(all: seq<N>, adj: Adjacency<N>, index: map<N, int>, n: N)
    requires n in index && Elements(all) <= index.Keys
  {
    forall x | IsPassOf(all, Cut(adj, index, n), index, x) :: Preds(Elements(all), adj, n) !! Elements(x)
  }

  ghost predicate RepeatedWait<N(!new)>(all: seq<N>, adj: Adjacency<N>, index: map<N, int>)
    requires Elements(all) <= index.Keys
  {
    forall n {:trigger RepeatedWaits(all, adj, index, n)} :: RepeatedWaits(all, adj, index, n)
  }

  ghost predicate RepeatedWaits<N(!new)>(all: seq<N>, adj: Adjacency<N>, index: map<N, int>, n: N)
    requires Elements(all) <= index.Keys
  {
    HasLoose(all, adj, n) ==> n in index && WaitsForStuck(all, adj, index, n)
  }

  /** n is repeated and has a prerequisite. */
  ghost predicate HasLoose<N(!new)>(all: seq<N>, adj: Adjacency<N>, n: N) {
    n in all && multiset(all)[n] > 1 && Preds(Elements(all), adj, n) != {}
  }

  lemma RootsIff<N(!new)>(all: seq<N>, adj: Adjacency<N>)
    ensures RepeatedAreRoots(all, adj) <==> forall n :: !HasLoose(all, adj, n)
  {
    if RepeatedAreRoots(all, adj) {
      forall n ensures !HasLoose(all, adj, n) { assert RootIfRepeated(all, adj, n); }
    }
    if forall n :: !HasLoose(all, adj, n) {
      forall n ensures RootIfRepeated(all, adj, n) { assert !HasLoose(all, adj, n); }
    }
  }

  // --- comparing passes over different graphs ---

  lemma {:induction false} HitsOfConcat<N(!new)>(adj: Adjacency<N>, a: seq<N>, b: seq<N>, n: N)
    ensures Hits(adj, a + b, n) == Hits(adj, a, n) + Hits(adj, b, n)
  {
    if b == [] {
      assert a + b == a;
    } else {
      assert (a + b)[..|a + b| - 1] == a + b[..|b| - 1];
      HitsOfConcat(adj, a, b[..|b| - 1], n);
    }
  }

  lemma HitsOfOne<N(!new)>(adj: Adjacency<N>, x: N, n: N)
    ensures Hits(adj, [x], n) == if n in Out(adj, x) then 1 else 0
  {
    assert [x][..0] == [];
  }

  lemma TakeOut<N(!new)>(b: seq<N>, x: N) returns (rest: seq<N>)
    requires x in b
    ensures multiset(b) == multiset(rest) + multiset{x} && Elements(rest) <= Elements(b)
    ensures forall adj: Adjacency<N>, n :: Hits(adj, b, n) == Hits(adj, rest, n) + if n in Out(adj, x) then 1 else 0
  {
    var i :| 0 <= i < |b| && b[i] == x;
    rest := b[..i] + b[i + 1..];
    assert b == b[..i] + ([x] + b[i + 1..]);
    forall adj: Adjacency<N>, n ensures Hits(adj, b, n) == Hits(adj, rest, n) + if n in Out(adj, x) then 1 else 0 {
      HitsOfConcat(adj, b[..i], [x] + b[i + 1..], n);
      HitsOfConcat(adj, [x], b[i + 1..], n);
      HitsOfConcat(adj, b[..i], b[i + 1..], n);
      HitsOfOne(adj, x, n);
    }
  }

  /** Listing more counts down more. */
  lemma {:induction false} HitsMonotone<N(!new)>(names: set<N>, adj: Adjacency<N>, a: seq<N>, adj': Adjacency<N>, b: seq<N>, n: N)
    requires multiset(a) <= multiset(b) && Elements(b) <= names && Preds(names, adj, n) == Preds(names, adj', n)
    ensures Hits(adj, a, n) <= Hits(adj', b, n)
    decreases |a|
  {
    if a != [] {
      var front, last := a[..|a| - 1], a[|a| - 1];
      assert a == front + [last];
      assert last in multiset(a);
      assert last in multiset(b) && multiset(a) == multiset(front) + multiset{last};
      var rest := TakeOut(b, last);
      LessWithout(front, rest, last);
      HitsMonotone(names, adj, front, adj', rest, n);
      assert last in names;
      assert n in Out(adj, last) <==> last in Preds(names, adj, n);
      assert n in Out(adj', last) <==> last in Preds(names, adj', n);
    }
  }

  lemma LessWithout<N>(a: seq<N>, b: seq<N>, x: N)
    requires multiset(a) + multiset{x} <= multiset(b) + multiset{x}
    ensures multiset(a) <= multiset(b)
  {
    forall n ensures multiset(a)[n] <= multiset(b)[n] {
      assert (multiset(a) + multiset{x})[n] <= (multiset(b) + multiset{x})[n];
    }
  }

  lemma {:induction false} NoPrerequisiteListed<N(!new)>(names: set<N>, adj: Adjacency<N>, a: seq<N>, n: N)
    requires Elements(a) <= names && Preds(names, adj, n) !! Elements(a)
    ensures Hits(adj, a, n) == 0
  {
    if a != [] {
      var front, last := a[..|a| - 1], a[|a| - 1];
      assert a == front + [last] && last in Elements(a) && Elements(front) <= Elements(a);
      NoPrerequisiteListed(names, adj, front, n);
      assert n in Out(adj, last) ==> last in Preds(names, adj, n);
    }
  }

  /** Why n is listed in y as often as in x: in full, for the same prerequisites, or not at all in x, as
      when none of its prerequisites is listed in y. */
  ghost predicate NoLess<N(!new)>(all: seq<N>, adj: Adjacency<N>, x: seq<N>, adj': Adjacency<N>, y: seq<N>, n: N) {
    || multiset(y)[n] == multiset(all)[n]
    || Preds(Elements(all), adj, n) == Preds(Elements(all), adj', n)
    || n !in x
    || (Preds(Elements(all), adj, n) != {} && Preds(Elements(all), adj, n) !! Elements(y))
  }

  lemma ListsNoLess<N(!new)>(all: seq<N>, index: map<N, int>, adj: Adjacency<N>, x: seq<N>, adj': Adjacency<N>, y: seq<N>)
    requires Elements(all) <= index.Keys && ListsLowest(all, adj, index, x) && IsPassOf(all, adj', index, y)
    requires forall n {:trigger NoLess(all, adj, x, adj', y, n)} | n in all :: NoLess(all, adj, x, adj', y, n)
    ensures multiset(x) <= multiset(y)
  {
    ListedFits(all, adj', index, y);
    for k := 0 to |x|
      invariant multiset(x[..k]) <= multiset(y)
    {
      OneMoreNoLess(all, index, adj, x, k, adj', y);
    }
    assert x[..|x|] == x;
  }

  lemma OneMoreNoLess<N(!new)>(all: seq<N>, index: map<N, int>, adj: Adjacency<N>, x: seq<N>, k: nat, adj': Adjacency<N>, y: seq<N>)
    requires Elements(all) <= index.Keys && ListsLowest(all, adj, index, x) && IsPassOf(all, adj', index, y) && k < |x|
    requires forall n {:trigger NoLess(all, adj, x, adj', y, n)} | n in all :: NoLess(all, adj, x, adj', y, n)
    requires multiset(x[..k]) <= multiset(y) && Elements(y) <= Elements(all)
    ensures multiset(x[..k + 1]) <= multiset(y)
  {
    var n, front := x[k], x[..k];
    ListsPrefix(all, adj, index, x, k);
    ListsPrefix(all, adj, index, x, k + 1);
    assert x[..k + 1] == front + [n];
    assert multiset(x[..k + 1]) == multiset(front) + multiset{n};
    assert NoLess(all, adj, x, adj', y, n) && n in x;
    ListedIsOwed(all, adj, index, x[..k + 1], n);
    if multiset(y)[n] != multiset(all)[n] {
      if Preds(Elements(all), adj, n) == Preds(Elements(all), adj', n) {
        HitsMonotone(Elements(all), adj, front, adj', y, n);
        assert n !in Pending(all, adj', y);
      } else {
        SubsetOfListed(front, y);
        NoPrerequisiteListed(Elements(all), adj, front, n);
        assert false;
      }
    }
  }

  lemma SubsetOfListed<N(!new)>(x: seq<N>, y: seq<N>)
    requires multiset(x) <= multiset(y)
    ensures Elements(x) <= Elements(y)
  {
    forall n | n in x ensures n in y { assert n in multiset(x); assert n in multiset(y); }
  }

  lemma FullIfRoot<N(!new)>(all: seq<N>, adj: Adjacency<N>, index: map<N, int>, x: seq<N>, m: N)
    requires Elements(all) <= index.Keys && IsPassOf(all, adj, index, x) && m in all
    requires Preds(Elements(all), adj, m) == {} || (m in x && multiset(all)[m] == 1)
    ensures multiset(x)[m] == multiset(all)[m]
  {
    ListedIsOwed(all, adj, index, x, m);
    assert m !in Pending(all, adj, x);
  }

  /** If everything after n is listed, and what is repeated there is without prerequisites, a pass does not
      miss the edges into what comes after n. */
  lemma CutListsTheSame<N(!new)>(all: seq<N>, adj: Adjacency<N>, index: map<N, int>, n: N, x: seq<N>, y: seq<N>)
    requires Elements(all) <= index.Keys && n in index && IsPassOf(all, adj, index, x) && IsPassOf(all, Cut(adj, index, n), index, y)
    requires forall m | m in all && index[m] > index[n] :: m in x && RootIfRepeated(all, adj, m)
    ensures multiset(x) == multiset(y)
  {
    var cut := Cut(adj, index, n);
    forall m | m in all ensures NoLess(all, adj, x, cut, y, m) && NoLess(all, cut, y, adj, x, m) {
      assert m in Elements(all);
      PredsOfCut(Elements(all), adj, index, n, m);
      if index[m] > index[n] {
        assert RootIfRepeated(all, adj, m) && multiset(all)[m] > 0;
        FullIfRoot(all, adj, index, x, m);
        FullIfRoot(all, cut, index, y, m);
      }
    }
    ListsNoLess(all, index, adj, x, cut, y);
    ListsNoLess(all, index, cut, y, adj, x);
  }

  // --- a round ---

  ghost predicate DropsOne<N(!new)>(names: set<N>, adj: Adjacency<N>, adj': Adjacency<N>, from: N, to: N) {
    forall n {:trigger Preds(names, adj', n)} :: Preds(names, adj', n) == Preds(names, adj, n) - if n == to then {from} else {}
  }

  /** What one round changes, seen from the nodes. */
  lemma RoundAsPreds<N(!new)>(all: seq<N>, index: map<N, int>, adj: Adjacency<N>, adj': Adjacency<N>, deg: Degrees<N>)
    returns (x: seq<N>, from: N, to: N, deg': Degrees<N>)
    requires Elements(all) <= index.Keys && IsGraph(Elements(all), adj, deg) && IsRound(all, index, adj, adj')
    ensures IsPassOf(all, adj, index, x) && from in all && to in all && from !in x && to !in x
    ensures forall n | n in all && n !in x :: index[n] <= index[to]
    ensures DropsOne(Elements(all), adj, adj', from, to)
    ensures from in Preds(Elements(all), adj, to) && IsGraph(Elements(all), adj', deg')
  {
    x, from, to :| BreaksAfter(all, index, adj, adj', x, from, to);
    var members := Unlisted(all, Elements(x));
    UnlistedElements(all, Elements(x));
    BreakDropsEdge(Elements(all), adj, adj', deg, members, index, from, to);
    deg' := deg[to := deg[to] - 1];
    assert from in Elements(members) && to in Elements(members);
    forall n | n in all && n !in x ensures index[n] <= index[to] { assert n in Elements(members); }
    forall n ensures Preds(Elements(all), adj', n) == Preds(Elements(all), adj, n) - if n == to then {from} else {} {
      PredsAfterRemoval(Elements(all), adj, from, to, n);
    }
  }

  lemma RoundOfPass<N(!new)>(all: seq<N>, index: map<N, int>, adj: Adjacency<N>, adj': Adjacency<N>, deg: Degrees<N>, x: seq<N>)
    returns (from: N, to: N, deg': Degrees<N>)
    requires Elements(all) <= index.Keys && Injective(Elements(all), index) && IsPassOf(all, adj, index, x)
    requires IsGraph(Elements(all), adj, deg) && IsRound(all, index, adj, adj')
    ensures from !in x && to !in x && IsGraph(Elements(all), adj', deg')
    ensures DropsOne(Elements(all), adj, adj', from, to)
  {
    var x';
    x', from, to, deg' := RoundAsPreds(all, index, adj, adj', deg);
    SameItself(adj);
    PassIsUnique(all, adj, adj, index, x, x');
  }

  /** What a round lists, the next one lists. */
  lemma RoundListsMore<N(!new)>(all: seq<N>, index: map<N, int>, adj: Adjacency<N>, x: seq<N>, adj': Adjacency<N>, y: seq<N>, from: N, to: N)
    requires Elements(all) <= index.Keys && IsPassOf(all, adj, index, x) && IsPassOf(all, adj', index, y) && to !in x
    requires DropsOne(Elements(all), adj, adj', from, to)
    ensures Elements(x) <= Elements(y)
  {
    forall n | n in all ensures NoLess(all, adj, x, adj', y, n) {}
    ListsNoLess(all, index, adj, x, adj', y);
    SubsetOfListed(x, y);
  }

  /** Nothing is dropped any more that leads into or out of what a round has listed. */
  lemma {:induction false} ListedKeeps<N(!new)>(all: seq<N>, index: map<N, int>, graphs: seq<Adjacency<N>>, order: seq<N>,
                                                deg: Degrees<N>, x: seq<N>, m: N)
    requires Elements(all) <= index.Keys && Injective(Elements(all), index) && IsSort(all, index, graphs, order)
    requires IsGraph(Elements(all), graphs[0], deg) && IsPassOf(all, graphs[0], index, x) && m in x
    ensures var last := graphs[|graphs| - 1];
      && Preds(Elements(all), last, m) == Preds(Elements(all), graphs[0], m)
      && forall n | m in Preds(Elements(all), graphs[0], n) :: m in Preds(Elements(all), last, n)
    decreases |graphs|
  {
    if |graphs| > 1 {
      SortWithoutFirst(all, index, graphs, order);
      var y, deg' := ListedKeepsOnce(all, index, graphs[0], graphs[1], deg, x, m);
      ListedKeeps(all, index, graphs[1..], order, deg', y, m);
    }
  }

  lemma ListedKeepsOnce<N(!new)>(all: seq<N>, index: map<N, int>, adj: Adjacency<N>, adj': Adjacency<N>, deg: Degrees<N>,
                                 x: seq<N>, m: N) returns (y: seq<N>, deg': Degrees<N>)
    requires Elements(all) <= index.Keys && Injective(Elements(all), index) && IsRound(all, index, adj, adj')
    requires IsGraph(Elements(all), adj, deg) && IsPassOf(all, adj, index, x) && m in x
    ensures IsGraph(Elements(all), adj', deg') && IsPassOf(all, adj', index, y) && m in y
    ensures Preds(Elements(all), adj', m) == Preds(Elements(all), adj, m)
    ensures forall n | m in Preds(Elements(all), adj, n) :: m in Preds(Elements(all), adj', n)
  {
    var from, to;
    from, to, deg' := RoundOfPass(all, index, adj, adj', deg, x);
    y := PassExists(all, adj', index, []);
    RoundListsMore(all, index, adj, x, adj', y, from, to);
    assert m in Elements(y);
    PredsKept(Elements(all), adj, adj', from, to, m);
  }

  lemma PredsKept<N(!new)>(names: set<N>, adj: Adjacency<N>, adj': Adjacency<N>, from: N, to: N, m: N)
    requires DropsOne(names, adj, adj', from, to)
    requires m != from && m != to
    ensures Preds(names, adj', m) == Preds(names, adj, m)
    ensures forall n | m in Preds(names, adj, n) :: m in Preds(names, adj', n)
  {
  }

  lemma SameItself<N(!new)>(adj: Adjacency<N>)
    ensures SameEdges(adj, adj)
  {
  }

  /** A round whose edge leads into what is positioned after n changes nothing for n. */
  lemma WaitingIsKept<N(!new)>(all: seq<N>, index: map<N, int>, adj: Adjacency<N>, adj': Adjacency<N>, n: N, from: N, to: N)
    requires Elements(all) <= index.Keys && n in index && to in index && index[n] < index[to]
    requires DropsOne(Elements(all), adj, adj', from, to)
    ensures WaitsForStuck(all, adj, index, n) <==> WaitsForStuck(all, adj', index, n)
  {
    var cut, cut' := Cut(adj, index, n), Cut(adj', index, n);
    forall m | m in all ensures Preds(Elements(all), cut, m) == Preds(Elements(all), cut', m) {
      assert m in Elements(all);
      PredsOfCut(Elements(all), adj, index, n, m);
      PredsOfCut(Elements(all), adj', index, n, m);
    }
    forall x ensures IsPassOf(all, cut, index, x) <==> IsPassOf(all, cut', index, x) {
      SamePredsSamePass(all, index, cut, cut', x);
    }
  }

  lemma {:induction false} SamePredsSameHits<N(!new)>(all: seq<N>, adj: Adjacency<N>, adj': Adjacency<N>, order: seq<N>, n: N)
    requires Elements(order) <= Elements(all) && Preds(Elements(all), adj, n) == Preds(Elements(all), adj', n)
    ensures Hits(adj, order, n) == Hits(adj', order, n)
  {
    HitsMonotone(Elements(all), adj, order, adj', order, n);
    HitsMonotone(Elements(all), adj', order, adj, order, n);
  }

  lemma SamePredsSamePass<N(!new)>(all: seq<N>, index: map<N, int>, adj: Adjacency<N>, adj': Adjacency<N>, x: seq<N>)
    requires Elements(all) <= index.Keys
    requires forall m | m in all :: Preds(Elements(all), adj, m) == Preds(Elements(all), adj', m)
    ensures IsPassOf(all, adj, index, x) <==> IsPassOf(all, adj', index, x)
  {
    if IsPassOf(all, adj, index, x) { SamePredsPassToo(all, index, adj, adj', x); }
    if IsPassOf(all, adj', index, x) { SamePredsPassToo(all, index, adj', adj, x); }
  }

  lemma SamePredsPassToo<N(!new)>(all: seq<N>, index: map<N, int>, adj: Adjacency<N>, adj': Adjacency<N>, x: seq<N>)
    requires Elements(all) <= index.Keys && IsPassOf(all, adj, index, x)
    requires forall m | m in all :: Preds(Elements(all), adj, m) == Preds(Elements(all), adj', m)
    ensures IsPassOf(all, adj', index, x)
  {
    forall k: nat | k <= |x| ensures Pending(all, adj, x[..k]) == Pending(all, adj', x[..k]) {
      ListsPrefix(all, adj, index, x, k);
      ListedFits(all, adj, index, x[..k]);
      forall m | m in all ensures Owed(all, adj, x[..k], m) == Owed(all, adj', x[..k], m) {
        SamePredsSameHits(all, adj, adj', x[..k], m);
      }
    }
    forall k: nat | k < |x| ensures NextAt(all, adj', index, x, k) { assert NextAt(all, adj, index, x, k); }
    assert x[..|x|] == x;
  }

  // --- both directions ---

  /** If the sort ends, every repeated name with prerequisites waited for stuck ones only. */
  lemma {:induction false} EndingWaits<N(!new)>(all: seq<N>, index: map<N, int>, graphs: seq<Adjacency<N>>, order: seq<N>,
                                                deg: Degrees<N>, n: N)
    requires Elements(all) <= index.Keys && Injective(Elements(all), index) && IsSort(all, index, graphs, order)
    requires IsGraph(Elements(all), graphs[0], deg) && RepeatedAreRoots(all, graphs[|graphs| - 1])
    requires HasLoose(all, graphs[0], n)
    ensures n in Elements(all) && WaitsForStuck(all, graphs[0], index, n)
    decreases |graphs|
  {
    assert n in Elements(all);
    var deg', waits := EndingStep(all, index, graphs, order, deg, n);
    if !waits { EndingWaits(all, index, graphs[1..], order, deg', n); }
  }

  /** In its first round a repeated name waits for stuck ones only, or it is as it was in the next. */
  lemma EndingStep<N(!new)>(all: seq<N>, index: map<N, int>, graphs: seq<Adjacency<N>>, order: seq<N>,
                            deg: Degrees<N>, n: N) returns (deg': Degrees<N>, waits: bool)
    requires Elements(all) <= index.Keys && Injective(Elements(all), index) && IsSort(all, index, graphs, order)
    requires IsGraph(Elements(all), graphs[0], deg) && RepeatedAreRoots(all, graphs[|graphs| - 1])
    requires HasLoose(all, graphs[0], n) && n in index
    ensures |graphs| > 1 && IsSort(all, index, graphs[1..], order) && IsGraph(Elements(all), graphs[1], deg')
    ensures waits ==> WaitsForStuck(all, graphs[0], index, n)
    ensures !waits ==> HasLoose(all, graphs[1], n) && (WaitsForStuck(all, graphs[1], index, n) ==> WaitsForStuck(all, graphs[0], index, n))
  {
    LooseHasRound(all, graphs, n);
    SortWithoutFirst(all, index, graphs, order);
    var x, from, to;
    x, from, to, deg' := RoundAsPreds(all, index, graphs[0], graphs[1], deg);
    LooseIsUnlisted(all, index, graphs, order, deg, x, n);
    waits := to == n;
    if waits {
      LastDropWaits(all, index, graphs, order, deg, x, n);
    } else {
      EarlierDrop(all, index, graphs[0], graphs[1], n, from, to);
    }
  }

  lemma LooseHasRound<N(!new)>(all: seq<N>, graphs: seq<Adjacency<N>>, n: N)
    requires graphs != [] && RepeatedAreRoots(all, graphs[|graphs| - 1]) && HasLoose(all, graphs[0], n)
    ensures |graphs| > 1
  {
    assert RootIfRepeated(all, graphs[|graphs| - 1], n);
  }

  lemma LooseIsUnlisted<N(!new)>(all: seq<N>, index: map<N, int>, graphs: seq<Adjacency<N>>, order: seq<N>,
                                 deg: Degrees<N>, x: seq<N>, n: N)
    requires Elements(all) <= index.Keys && Injective(Elements(all), index) && IsSort(all, index, graphs, order)
    requires IsGraph(Elements(all), graphs[0], deg) && RepeatedAreRoots(all, graphs[|graphs| - 1])
    requires IsPassOf(all, graphs[0], index, x) && HasLoose(all, graphs[0], n)
    ensures n !in x
  {
    assert RootIfRepeated(all, graphs[|graphs| - 1], n);
    if n in x {
      ListedKeeps(all, index, graphs, order, deg, x, n);
      assert false;
    }
  }

  lemma EarlierDrop<N(!new)>(all: seq<N>, index: map<N, int>, adj: Adjacency<N>, adj': Adjacency<N>, n: N, from: N, to: N)
    requires Elements(all) <= index.Keys && Injective(Elements(all), index) && DropsOne(Elements(all), adj, adj', from, to)
    requires HasLoose(all, adj, n) && n in index && to in all && index[n] <= index[to] && n != to
    ensures HasLoose(all, adj', n) && (WaitsForStuck(all, adj, index, n) <==> WaitsForStuck(all, adj', index, n))
  {
    assert n in Elements(all) && to in Elements(all);
    assert Preds(Elements(all), adj', n) == Preds(Elements(all), adj, n);
    WaitingIsKept(all, index, adj, adj', n, from, to);
  }

  lemma LastDropWaits<N(!new)>(all: seq<N>, index: map<N, int>, graphs: seq<Adjacency<N>>, order: seq<N>,
                               deg: Degrees<N>, x: seq<N>, n: N)
    requires Elements(all) <= index.Keys && Injective(Elements(all), index) && IsSort(all, index, graphs, order)
    requires IsGraph(Elements(all), graphs[0], deg) && RepeatedAreRoots(all, graphs[|graphs| - 1])
    requires IsPassOf(all, graphs[0], index, x) && n in all && multiset(all)[n] > 1
    requires forall m | m in all && m !in x :: index[m] <= index[n]
    ensures n in Elements(all) && WaitsForStuck(all, graphs[0], index, n)
  {
    var adj, last := graphs[0], graphs[|graphs| - 1];
    assert n in Elements(all) && RootIfRepeated(all, last, n);
    forall m | m in all && index[m] > index[n] ensures m in x && RootIfRepeated(all, adj, m) {
      ListedKeeps(all, index, graphs, order, deg, x, m);
      assert RootIfRepeated(all, last, m);
    }
    forall y | IsPassOf(all, Cut(adj, index, n), index, y) ensures Preds(Elements(all), adj, n) !! Elements(y) {
      CutListsTheSame(all, adj, index, n, x, y);
      SubsetOfListed(y, x);
      forall p | p in Preds(Elements(all), adj, n) ensures p !in Elements(y) {
        if p in x { ListedKeeps(all, index, graphs, order, deg, x, p); assert false; }
      }
    }
  }

  function Above<N(==)>(all: seq<N>, index: map<N, int>, n: N): set<N> {
    set m | m in all && m in index && n in index && index[m] > index[n]
  }

  lemma HighestLoose<N(!new)>(all: seq<N>, adj: Adjacency<N>, index: map<N, int>, n: N) returns (h: N)
    requires Elements(all) <= index.Keys && HasLoose(all, adj, n)
    ensures HasLoose(all, adj, h) && h in index && n in index && index[n] <= index[h]
    ensures forall m | m in all && index[m] > index[h] :: RootIfRepeated(all, adj, m)
    decreases Above(all, index, n)
  {
    assert n in Elements(all);
    if m :| m in all && m in index && index[m] > index[n] && HasLoose(all, adj, m) {
      assert m in Above(all, index, n) && m !in Above(all, index, m);
      h := HighestLoose(all, adj, index, m);
    } else {
      h := n;
      forall m | m in all && index[m] > index[h] ensures RootIfRepeated(all, adj, m) {
        assert m in Elements(all);
        assert !HasLoose(all, adj, m);
      }
    }
  }

  /** If all repeated names wait for stuck ones only, none of them that has prerequisites is listed while
      everything after it is. */
  lemma WaitingIsStuck<N(!new)>(all: seq<N>, adj: Adjacency<N>, index: map<N, int>, x: seq<N>, n: N)
    requires Elements(all) <= index.Keys && IsPassOf(all, adj, index, x) && RepeatedWait(all, adj, index)
    requires n in index && forall m | m in all && index[m] >= index[n] :: m in x
    ensures !HasLoose(all, adj, n)
  {
    if HasLoose(all, adj, n) {
      var h := HighestLoose(all, adj, index, n);
      HighestIsStuck(all, adj, index, x, h);
      assert false;
    }
  }

  lemma HighestIsStuck<N(!new)>(all: seq<N>, adj: Adjacency<N>, index: map<N, int>, x: seq<N>, h: N)
    requires Elements(all) <= index.Keys && IsPassOf(all, adj, index, x) && RepeatedWait(all, adj, index)
    requires HasLoose(all, adj, h) && h in index
    requires forall m | m in all && index[m] > index[h] :: m in x && RootIfRepeated(all, adj, m)
    ensures h !in x
  {
    assert RepeatedWaits(all, adj, index, h);
    var y := PassExists(all, Cut(adj, index, h), index, []);
    CutListsTheSame(all, adj, index, h, x, y);
    SubsetOfListed(x, y);
    assert Preds(Elements(all), adj, h) !! Elements(x);
    ListedFits(all, adj, index, x);
    NoPrerequisiteListed(Elements(all), adj, x, h);
    ListedIsOwed(all, adj, index, x, h);
  }

  lemma StillWaiting<N(!new)>(all: seq<N>, index: map<N, int>, adj: Adjacency<N>, adj': Adjacency<N>, x: seq<N>, n: N, from: N, to: N)
    requires Elements(all) <= index.Keys && Injective(Elements(all), index) && IsPassOf(all, adj, index, x)
    requires RepeatedWait(all, adj, index) && to in all && forall m | m in all && m !in x :: index[m] <= index[to]
    requires DropsOne(Elements(all), adj, adj', from, to)
    requires HasLoose(all, adj', n)
    ensures n in index && WaitsForStuck(all, adj', index, n)
  {
    assert n in Elements(all) && to in Elements(all) && HasLoose(all, adj, n);
    assert RepeatedWaits(all, adj, index, n);
    if index[n] < index[to] {
      WaitingIsKept(all, index, adj, adj', n, from, to);
    } else if n == to {
      DroppingKeepsWaiting(all, index, adj, adj', n, from);
    } else {
      WaitingIsStuck(all, adj, index, x, n);
      assert false;
    }
  }

  lemma DroppingKeepsWaiting<N(!new)>(all: seq<N>, index: map<N, int>, adj: Adjacency<N>, adj': Adjacency<N>, n: N, from: N)
    requires Elements(all) <= index.Keys && n in index && WaitsForStuck(all, adj, index, n)
    requires DropsOne(Elements(all), adj, adj', from, n)
    requires Preds(Elements(all), adj', n) != {}
    ensures WaitsForStuck(all, adj', index, n)
  {
    var cut, cut' := Cut(adj, index, n), Cut(adj', index, n);
    var y := PassExists(all, cut, index, []);
    forall x | IsPassOf(all, cut', index, x) ensures Preds(Elements(all), adj', n) !! Elements(x) {
      forall m | m in all ensures NoLess(all, cut', x, cut, y, m) {
        assert m in Elements(all);
        PredsOfCut(Elements(all), adj, index, n, m);
        PredsOfCut(Elements(all), adj', index, n, m);
      }
      ListsNoLess(all, index, cut', x, cut, y);
      SubsetOfListed(x, y);
    }
  }

  lemma {:induction false} WaitingEnds<N(!new)>(all: seq<N>, index: map<N, int>, graphs: seq<Adjacency<N>>, order: seq<N>, deg: Degrees<N>)
    requires Elements(all) <= index.Keys && Injective(Elements(all), index) && IsSort(all, index, graphs, order)
    requires IsGraph(Elements(all), graphs[0], deg) && RepeatedWait(all, graphs[0], index)
    ensures RepeatedAreRoots(all, graphs[|graphs| - 1])
    decreases |graphs|
  {
    if |graphs| > 1 {
      SortWithoutFirst(all, index, graphs, order);
      var x, from, to, deg' := RoundAsPreds(all, index, graphs[0], graphs[1], deg);
      forall n ensures RepeatedWaits(all, graphs[1], index, n) {
        if HasLoose(all, graphs[1], n) { StillWaiting(all, index, graphs[0], graphs[1], x, n, from, to); }
      }
      WaitingEnds(all, index, graphs[1..], order, deg');
    } else {
      RootsIff(all, graphs[0]);
      forall n ensures !HasLoose(all, graphs[0], n) {
        if HasLoose(all, graphs[0], n) {
          assert n in Elements(all);
          WaitingIsStuck(all, graphs[0], index, order, n);
          assert false;
        }
      }
    }
  }

  /** For every graph: the sort ends if and only if every repeated name with prerequisites waits for stuck
      ones only. */
  lemma EndsIffWaiting<N(!new)>(all: seq<N>, index: map<N, int>, graphs: seq<Adjacency<N>>, order: seq<N>, deg: Degrees<N>)
    requires Elements(all) <= index.Keys && Injective(Elements(all), index) && IsSort(all, index, graphs, order)
    requires IsGraph(Elements(all), graphs[0], deg)
    ensures |order| == |all| <==> RepeatedWait(all, graphs[0], index)
  {
    var last := graphs[|graphs| - 1];
    CompleteIff(all, last, index, order);
    ListedFits(all, last, index, order);
    if RepeatedAreRoots(all, last) {
      forall n ensures RepeatedWaits(all, graphs[0], index, n) {
        if HasLoose(all, graphs[0], n) { EndingWaits(all, index, graphs, order, deg, n); }
      }
    }
    if RepeatedWait(all, graphs[0], index) { WaitingEnds(all, index, graphs, order, deg); }
  }
}
