/** Matching of components and of managed resources, and the scores it rests on. */
module Similarity {
  import opened Wrappers
  import opened Match
  import opened MatchTheorems

  datatype ManagedResource = ManagedResource(kind: string, name: string, labels: map<string, string>)

  datatype ComponentModel = ComponentModel(name: string, controller: string, managedResources: seq<ManagedResource>)

  // --- overlap of sets ---

  /** The Jaccard similarity of two sets; 0 for two empty ones. */
  function Overlap<T(==)>(a: set<T>, b: set<T>): real {
    if |a + b| == 0 then 0.0 else |a * b| as real / |a + b| as real
  }

  method SetOverlap<T(==)>(a: set<T>, b: set<T>) returns (r: real)
    ensures r == Overlap(a, b)
  {
    if a == {} && b == {} {
      return 0.0;
    }
    var intersection := Count(a, b, true);
    var union := Count(b, a, false);
    union := |a| + union;
    assert Part(a, b, true) == a * b && a + b == a + Part(b, a, false);
    NotEmpty(a, b);
    r := intersection as real / union as real;
  }

  function Part<T(==)>(a: set<T>, b: set<T>, inside: bool): set<T> {
    set k | k in a && (k in b) == inside
  }

  /** Counts the elements of a that are, or are not, in b. */
  method Count<T(==)>(a: set<T>, b: set<T>, inside: bool) returns (n: nat)
    ensures n == |Part(a, b, inside)|
  {
    n := 0;
    var rest := a;
    while rest != {}
      invariant rest <= a && n == |Part(a - rest, b, inside)|
      decreases |rest|
    {
      var k :| k in rest;
      assert Part(a - (rest - {k}), b, inside) == Part(a - rest, b, inside) + if (k in b) == inside then {k} else {};
      rest := rest - {k};
      if (k in b) == inside { n := n + 1; }
    }
    assert a - rest == a;
  }

  lemma NotEmpty<T>(a: set<T>, b: set<T>)
    ensures |a + b| == 0 <==> a == {} && b == {}
  {
    if |a + b| == 0 {
      assert a + b == {};
      assert a <= a + b && b <= a + b;
    }
  }

  lemma SubsetSize<T>(a: set<T>, b: set<T>)
    requires a <= b
    ensures |a| <= |b| && (|a| == |b| <==> a == b)
  {
    assert b == a + (b - a);
    assert |b| == |a| + |b - a|;
    if |a| == |b| { assert b - a == {}; }
  }

  lemma Ratio(x: nat, y: nat)
    requires x <= y && y > 0
    ensures 0.0 <= x as real / y as real <= 1.0
    ensures x as real / y as real == 1.0 <==> x == y
    ensures x as real / y as real == 0.0 <==> x == 0
  {
    var q := x as real / y as real;
    assert q * y as real == x as real;
  }

  /** The overlap lies between 0, for sets without a common element, and 1, for equal ones;
      it does not depend on the order. */
  lemma OverlapBounds<T>(a: set<T>, b: set<T>)
    ensures 0.0 <= Overlap(a, b) <= 1.0 && Overlap(a, b) == Overlap(b, a)
    ensures Overlap(a, b) == 1.0 <==> a == b && a != {}
    ensures Overlap(a, b) == 0.0 <==> a * b == {}
  {
    SubsetSize(a * b, a + b);
    assert a * b == b * a && a + b == b + a;
    NotEmpty(a, b);
    if |a + b| > 0 { Ratio(|a * b|, |a + b|); }
    assert a * b == a + b <==> a == b by {
      if a * b == a + b {
        assert forall x :: x in a ==> x in a * b;
        assert forall x :: x in b ==> x in a * b;
      }
    }
    assert |a * b| == 0 <==> a * b == {};
  }

  // --- similarity of components ---

  function Kinds(resources: seq<ManagedResource>): set<string> {
    set r | r in resources :: r.kind
  }

  method ResourceKinds(resources: seq<ManagedResource>) returns (kinds: set<string>)
    ensures kinds == Kinds(resources)
  {
    kinds := {};
    for i := 0 to |resources|
      invariant kinds == Kinds(resources[..i])
    {
      kinds := kinds + {resources[i].kind};
      assert resources[..i + 1] == resources[..i] + [resources[i]];
    }
    assert resources[..|resources|] == resources;
  }

  function LabelKeys(resources: seq<ManagedResource>): set<string> {
    set r, k | r in resources && k in r.labels :: k
  }

  method AllLabelKeys(resources: seq<ManagedResource>) returns (keys: set<string>)
    ensures keys == LabelKeys(resources)
  {
    keys := {};
    for i := 0 to |resources|
      invariant keys == LabelKeys(resources[..i])
    {
      keys := keys + resources[i].labels.Keys;
      assert resources[..i + 1] == resources[..i] + [resources[i]];
    }
    assert resources[..|resources|] == resources;
  }

  function CountSimilarity(x: nat, y: nat): real {
    var most := if x > y then x else y;
    var difference := if x > y then x - y else y - x;
    if most == 0 then 0.0 else 1.0 - difference as real / most as real
  }

  function ComponentScore(a: ComponentModel, b: ComponentModel): real {
    0.4 * Overlap(Kinds(a.managedResources), Kinds(b.managedResources))
    + 0.3 * Overlap(LabelKeys(a.managedResources), LabelKeys(b.managedResources))
    + 0.2 * (if a.controller == b.controller then 1.0 else 0.0)
    + 0.1 * CountSimilarity(|a.managedResources|, |b.managedResources|)
  }

  method ComponentSimilarity(a: ComponentModel, b: ComponentModel) returns (score: real)
    ensures score == ComponentScore(a, b)
  {
    var kindsA := ResourceKinds(a.managedResources);
    var kindsB := ResourceKinds(b.managedResources);
    var kindOverlap := SetOverlap(kindsA, kindsB);
    var labelsA := AllLabelKeys(a.managedResources);
    var labelsB := AllLabelKeys(b.managedResources);
    var labelOverlap := SetOverlap(labelsA, labelsB);
    var controllerMatch := 0.0;
    if a.controller == b.controller {
      controllerMatch := 1.0;
    }
    var countSim := CountSimilarity(|a.managedResources|, |b.managedResources|);
    score := 0.4 * kindOverlap + 0.3 * labelOverlap + 0.2 * controllerMatch + 0.1 * countSim;
  }

  lemma CountBounds(x: nat, y: nat)
    ensures 0.0 <= CountSimilarity(x, y) <= 1.0 && CountSimilarity(x, y) == CountSimilarity(y, x)
    ensures CountSimilarity(x, y) == 1.0 <==> x == y && x > 0
  {
    var most := if x > y then x else y;
    if most > 0 { Ratio(if x > y then x - y else y - x, most); }
  }

  /** Alike in everything the score looks at. */
  predicate Indistinguishable(a: ComponentModel, b: ComponentModel) {
    && LabelKeys(a.managedResources) == LabelKeys(b.managedResources) != {} && a.controller == b.controller
    && |a.managedResources| == |b.managedResources| > 0
  }

  /** Scores lie between 0 and 1 and are symmetric; 1 means alike in kinds, label keys, controller
      and count.  Components without a common kind reach the threshold only if alike in all the rest. */
  lemma SimilarityBounds(a: ComponentModel, b: ComponentModel)
    ensures 0.0 <= ComponentScore(a, b) <= 1.0 && ComponentScore(a, b) == ComponentScore(b, a)
    ensures ComponentScore(a, b) == 1.0 <==>
      Kinds(a.managedResources) == Kinds(b.managedResources) && Indistinguishable(a, b)
    ensures Kinds(a.managedResources) * Kinds(b.managedResources) == {} ==>
      (ComponentScore(a, b) >= SIMILARITY_THRESHOLD <==> Indistinguishable(a, b))
  {
    OverlapBounds(Kinds(a.managedResources), Kinds(b.managedResources));
    OverlapBounds(LabelKeys(a.managedResources), LabelKeys(b.managedResources));
    CountBounds(|a.managedResources|, |b.managedResources|);
    if Indistinguishable(a, b) {
      assert a.managedResources[0].kind in Kinds(a.managedResources);
    }
  }

  /** What each aspect weighs, seen from pairs with equally many resources that agree fully in some aspects
      and not at all in the others: any two of kinds, label keys and controller reach the threshold, and one
      alone does not. */
  lemma AspectsWeigh(a: ComponentModel, b: ComponentModel)
    requires |a.managedResources| == |b.managedResources| > 0
    requires var k, l := Kinds(a.managedResources), LabelKeys(a.managedResources);
      && (k == Kinds(b.managedResources) || k !! Kinds(b.managedResources))
      && (l == LabelKeys(b.managedResources) || l !! LabelKeys(b.managedResources))
    ensures var kinds := Kinds(a.managedResources) == Kinds(b.managedResources);
      var labels := LabelKeys(a.managedResources) == LabelKeys(b.managedResources) != {};
      var controller := a.controller == b.controller;
      && 10.0 * ComponentScore(a, b) ==
           (if kinds then 4.0 else 0.0) + (if labels then 3.0 else 0.0) + (if controller then 2.0 else 0.0) + 1.0
      && (ComponentScore(a, b) >= SIMILARITY_THRESHOLD <==>
            (kinds && controller) || (kinds && labels) || (labels && controller))
  {
    OverlapBounds(Kinds(a.managedResources), Kinds(b.managedResources));
    OverlapBounds(LabelKeys(a.managedResources), LabelKeys(b.managedResources));
    CountBounds(|a.managedResources|, |b.managedResources|);
    assert a.managedResources[0].kind in Kinds(a.managedResources);
  }

  // --- the two matchers ---

  function SameName(a: ComponentModel, b: ComponentModel): bool {
    a.name == b.name
  }

  function ScoreOf(a: ComponentModel, b: ComponentModel): Option<real> {
    Some(ComponentScore(a, b))
  }

  method MatchComponents(source: seq<ComponentModel>, target: seq<ComponentModel>)
    returns (matched: seq<Match<ComponentModel>>, added: seq<ComponentModel>, removed: seq<ComponentModel>,
             ghost pairs: seq<Pair>, ghost exact: nat)
    ensures IsMatching(source, target, SameName, ScoreOf, pairs, exact)
    ensures Shows(source, target, pairs, matched)
    ensures removed == Unmatched(source, Sources(pairs)) && added == Unmatched(target, Targets(pairs))
    ensures multiset(source) == multiset(SourcesOf(matched)) + multiset(removed)
    ensures multiset(target) == multiset(TargetsOf(matched)) + multiset(added)
  {
    matched, added, removed, pairs, exact := FindMatches(source, target, SameName, ScoreOf);
    NothingIsLost(source, target, pairs, matched);
  }

  function SameKindAndName(a: ManagedResource, b: ManagedResource): bool {
    a.kind == b.kind && a.name == b.name
  }

  /** Resources of different kinds are no candidates. */
  function ResourceScore(a: ManagedResource, b: ManagedResource): Option<real> {
    if a.kind != b.kind then None else Some(Overlap(a.labels.Keys, b.labels.Keys))
  }

  method MatchResources(source: seq<ManagedResource>, target: seq<ManagedResource>)
    returns (matched: seq<Match<ManagedResource>>, added: seq<ManagedResource>, removed: seq<ManagedResource>,
             ghost pairs: seq<Pair>, ghost exact: nat)
    ensures IsMatching(source, target, SameKindAndName, ResourceScore, pairs, exact)
    ensures Shows(source, target, pairs, matched)
    ensures removed == Unmatched(source, Sources(pairs)) && added == Unmatched(target, Targets(pairs))
    ensures multiset(source) == multiset(SourcesOf(matched)) + multiset(removed)
    ensures multiset(target) == multiset(TargetsOf(matched)) + multiset(added)
    ensures forall m | m in matched :: m.source.kind == m.target.kind
  {
    matched, added, removed, pairs, exact := FindMatches(source, target, SameKindAndName, ResourceScore);
    NothingIsLost(source, target, pairs, matched);
    KindsAgree(source, target, pairs, exact, matched);
  }

  lemma KindsAgree(source: seq<ManagedResource>, target: seq<ManagedResource>, pairs: seq<Pair>, exact: nat,
                   matched: seq<Match<ManagedResource>>)
    requires IsMatching(source, target, SameKindAndName, ResourceScore, pairs, exact)
    requires Shows(source, target, pairs, matched)
    ensures forall m | m in matched :: m.source.kind == m.target.kind
  {
    forall m | m in matched ensures m.source.kind == m.target.kind {
      var k :| 0 <= k < |matched| && matched[k] == m;
      if k < exact {
        assert pairs[k] in pairs[..exact];
      } else {
        assert pairs[k] in pairs[exact..];
        var c := CandidateOf(source, target, ResourceScore, Sources(pairs[..exact]), Targets(pairs[..exact]), pairs[exact..], pairs[k]);
      }
    }
  }
}
