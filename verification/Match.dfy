/** Two-pass matching of a source list with a target list: exact matches first, then the
    best-scoring pairs above a threshold. */
module Match {
  import opened Wrappers

  const SIMILARITY_THRESHOLD := 0.6

  datatype Match<A> = Match(source: A, target: A, renamed: bool)

  datatype Candidate = Candidate(si: nat, ti: nat, score: real)

  /** The positions that a match connects. */
  datatype Pair = Pair(si: nat, ti: nat, renamed: bool)

  function Sources(pairs: seq<Pair>): set<nat> {
    set p | p in pairs :: p.si
  }

  function Targets(pairs: seq<Pair>): set<nat> {
    set p | p in pairs :: p.ti
  }

  ghost predicate InRange<A>(source: seq<A>, target: seq<A>, pairs: seq<Pair>) {
    forall p | p in pairs :: p.si < |source| && p.ti < |target|
  }

  /** No source and no target is matched twice. */
  ghost predicate OneToOne(pairs: seq<Pair>) {
    forall i, j | 0 <= i < j < |pairs| :: pairs[i].si != pairs[j].si && pairs[i].ti != pairs[j].ti
  }

  ghost predicate Shows<A>(source: seq<A>, target: seq<A>, pairs: seq<Pair>, matched: seq<Match<A>>)
    requires InRange(source, target, pairs)
  {
    |matched| == |pairs| && forall k | 0 <= k < |pairs| ::
      matched[k] == Match(source[pairs[k].si], target[pairs[k].ti], pairs[k].renamed)
  }

  /** The bookkeeping while matching. */
  ghost predicate Books<A>(source: seq<A>, target: seq<A>, pairs: seq<Pair>, matched: seq<Match<A>>,
                           usedSource: set<nat>, usedTarget: set<nat>) {
    && InRange(source, target, pairs) && OneToOne(pairs) && Shows(source, target, pairs, matched)
    && usedSource == Sources(pairs) && usedTarget == Targets(pairs)
  }

  lemma BooksGrow<A>(source: seq<A>, target: seq<A>, pairs: seq<Pair>, matched: seq<Match<A>>,
                     usedSource: set<nat>, usedTarget: set<nat>, p: Pair)
    requires Books(source, target, pairs, matched, usedSource, usedTarget)
    requires p.si < |source| && p.ti < |target| && p.si !in usedSource && p.ti !in usedTarget
    ensures Books(source, target, pairs + [p], matched + [Match(source[p.si], target[p.ti], p.renamed)],
                  usedSource + {p.si}, usedTarget + {p.ti})
  {
    OneToOneGrows(pairs, p);
    SidesGrow(pairs, p);
  }

  lemma OneToOneGrows(pairs: seq<Pair>, p: Pair)
    requires OneToOne(pairs) && p.si !in Sources(pairs) && p.ti !in Targets(pairs)
    ensures OneToOne(pairs + [p])
  {
    forall i | 0 <= i < |pairs| ensures pairs[i].si in Sources(pairs) && pairs[i].ti in Targets(pairs) {
      assert pairs[i] in pairs;
    }
  }

  lemma SidesGrow(pairs: seq<Pair>, p: Pair)
    ensures Sources(pairs + [p]) == Sources(pairs) + {p.si} && Targets(pairs + [p]) == Targets(pairs) + {p.ti}
  {
    assert forall x :: x in pairs + [p] <==> x in pairs || x == p;
  }

  // --- pass 1 ---

  ghost predicate ExactOnly<A>(source: seq<A>, target: seq<A>, same: (A, A) -> bool, pairs: seq<Pair>)
    requires InRange(source, target, pairs)
  {
    forall p | p in pairs :: !p.renamed && same(source[p.si], target[p.ti])
  }

  /** The first unused target from position i on that is the same as s, or the end of the list. */
  function FreeFrom<A>(s: A, target: seq<A>, used: set<nat>, same: (A, A) -> bool, i: nat): (t: nat)
    requires i <= |target|
    ensures i <= t <= |target| && (t < |target| ==> t !in used && same(s, target[t]))
    ensures forall j | i <= j < t && same(s, target[j]) :: j in used
    decreases |target| - i
  {
    if i == |target| || (i !in used && same(s, target[i])) then i else FreeFrom(s, target, used, same, i + 1)
  }

  method FirstFree<A>(s: A, target: seq<A>, used: set<nat>, same: (A, A) -> bool) returns (ti: nat)
    ensures ti == FreeFrom(s, target, used, same, 0)
  {
    for i := 0 to |target|
      invariant FreeFrom(s, target, used, same, i) == FreeFrom(s, target, used, same, 0)
    {
      if i !in used && same(s, target[i]) {
        return i;
      }
    }
    ti := |target|;
  }

  /** The exact matches of the first n sources: each, in order, takes its first free target. */
  ghost function ExactPairs<A>(source: seq<A>, target: seq<A>, same: (A, A) -> bool, n: nat): seq<Pair>
    requires n <= |source|
  {
    if n == 0 then []
    else
      var before := ExactPairs(source, target, same, n - 1);
      var t := FreeFrom(source[n - 1], target, Targets(before), same, 0);
      if t < |target| then before + [Pair(n - 1, t, false)] else before
  }

  /** Of a source among the first n and a target that are the same, one is used. */
  ghost predicate ExactIsExhaustive<A>(source: seq<A>, target: seq<A>, same: (A, A) -> bool, n: nat,
                                       usedSource: set<nat>, usedTarget: set<nat>)
    requires n <= |source|
  {
    forall i: nat, j: nat {:trigger same(source[i], target[j])} |
      i < n && j < |target| && same(source[i], target[j]) :: i in usedSource || j in usedTarget
  }

  /** What pass 1 has done after n sources. */
  ghost predicate ExactSoFar<A>(source: seq<A>, target: seq<A>, same: (A, A) -> bool, n: nat, pairs: seq<Pair>,
                                matched: seq<Match<A>>, usedSource: set<nat>, usedTarget: set<nat>)
    requires n <= |source|
  {
    && Books(source, target, pairs, matched, usedSource, usedTarget)
    && ExactOnly(source, target, same, pairs) && pairs == ExactPairs(source, target, same, n)
    && ExactIsExhaustive(source, target, same, n, usedSource, usedTarget)
    && forall i | i in usedSource :: i < n
  }

  lemma ExactNext<A>(source: seq<A>, target: seq<A>, same: (A, A) -> bool, n: nat, pairs: seq<Pair>,
                     matched: seq<Match<A>>, usedSource: set<nat>, usedTarget: set<nat>, t: nat)
    requires n < |source| && ExactSoFar(source, target, same, n, pairs, matched, usedSource, usedTarget)
    requires t == FreeFrom(source[n], target, usedTarget, same, 0)
    ensures if t < |target| then ExactSoFar(source, target, same, n + 1, pairs + [Pair(n, t, false)],
                                            matched + [Match(source[n], target[t], false)], usedSource + {n}, usedTarget + {t})
            else ExactSoFar(source, target, same, n + 1, pairs, matched, usedSource, usedTarget)
  {
    if t < |target| {
      BooksGrow(source, target, pairs, matched, usedSource, usedTarget, Pair(n, t, false));
    }
  }

  method ExactPass<A>(source: seq<A>, target: seq<A>, same: (A, A) -> bool)
    returns (matched: seq<Match<A>>, usedSource: set<nat>, usedTarget: set<nat>, pairs: seq<Pair>)
    ensures ExactSoFar(source, target, same, |source|, pairs, matched, usedSource, usedTarget)
  {
    matched, usedSource, usedTarget, pairs := [], {}, {}, [];
    for si := 0 to |source|
      invariant ExactSoFar(source, target, same, si, pairs, matched, usedSource, usedTarget)
    {
      var ti := FirstFree(source[si], target, usedTarget, same);
      ExactNext(source, target, same, si, pairs, matched, usedSource, usedTarget, ti);
      if ti < |target| {
        pairs := pairs + [Pair(si, ti, false)];
        matched := matched + [Match(source[si], target[ti], false)];
        usedSource, usedTarget := usedSource + {si}, usedTarget + {ti};
      }
    }
  }

  // --- pass 2 ---

  /** Both ends are free and the score reaches the threshold. */
  ghost predicate IsCandidate<A>(source: seq<A>, target: seq<A>, score: (A, A) -> Option<real>,
                                 usedSource: set<nat>, usedTarget: set<nat>, c: Candidate) {
    && c.si < |source| && c.ti < |target| && c.si !in usedSource && c.ti !in usedTarget
    && score(source[c.si], target[c.ti]) == Some(c.score) && c.score >= SIMILARITY_THRESHOLD
  }

  method FindCandidates<A>(source: seq<A>, target: seq<A>, usedSource: set<nat>, usedTarget: set<nat>,
                           score: (A, A) -> Option<real>) returns (candidates: seq<Candidate>)
    ensures forall c :: c in candidates <==> IsCandidate(source, target, score, usedSource, usedTarget, c)
  {
    candidates := [];
    for si := 0 to |source|
      invariant forall c :: c in candidates <==> c.si < si && IsCandidate(source, target, score, usedSource, usedTarget, c)
    {
      if si in usedSource {
        continue;
      }
      for ti := 0 to |target|
        invariant forall c :: c in candidates <==>
          (c.si < si || (c.si == si && c.ti < ti)) && IsCandidate(source, target, score, usedSource, usedTarget, c)
      {
        if ti !in usedTarget {
          var s := score(source[si], target[ti]);
          if s.Some? && s.value >= SIMILARITY_THRESHOLD {
            candidates := candidates + [Candidate(si, ti, s.value)];
          }
        }
      }
    }
  }

  predicate Descending(s: seq<Candidate>) {
    forall i, j | 0 <= i < j < |s| :: s[i].score >= s[j].score
  }

  /** Some descending permutation: the order of equal scores is not fixed. */
  method SortByScore(candidates: seq<Candidate>) returns (sorted: seq<Candidate>)
    ensures multiset(sorted) == multiset(candidates) && Descending(sorted)
  {
    sorted := [];
    var rest := candidates;
    while rest != []
      invariant multiset(sorted) + multiset(rest) == multiset(candidates)
      invariant Descending(sorted)
      invariant forall i, c | 0 <= i < |sorted| && c in rest :: sorted[i].score >= c.score
      decreases |rest|
    {
      SomeHighest(rest);
      var k :| 0 <= k < |rest| && forall j | 0 <= j < |rest| :: rest[k].score >= rest[j].score;
      SplitAt(rest, k);
      sorted, rest := sorted + [rest[k]], rest[..k] + rest[k + 1..];
    }
  }

  lemma SplitAt<T>(s: seq<T>, k: nat)
    requires k < |s|
    ensures multiset(s) == multiset{s[k]} + multiset(s[..k] + s[k + 1..])
    ensures forall x | x in s[..k] + s[k + 1..] :: x in s
  {
    assert s == s[..k] + [s[k]] + s[k + 1..];
  }

  lemma SomeHighest(s: seq<Candidate>)
    requires s != []
    ensures exists k :: 0 <= k < |s| && forall j | 0 <= j < |s| :: s[k].score >= s[j].score
  {
    var k := 0;
    for i := 0 to |s|
      invariant 0 <= k < |s| && forall j | 0 <= j < i :: s[k].score >= s[j].score
    {
      if s[i].score > s[k].score { k := i; }
    }
  }

  /** p stands in the way of c: they share an end, and p scores at least as high. */
  ghost predicate Blocks<A>(source: seq<A>, target: seq<A>, score: (A, A) -> Option<real>, p: Pair, c: Candidate) {
    && p.si < |source| && p.ti < |target| && p.renamed && (p.si == c.si || p.ti == c.ti)
    && score(source[p.si], target[p.ti]).Some? && score(source[p.si], target[p.ti]).value >= c.score
  }

  ghost predicate Settled<A>(source: seq<A>, target: seq<A>, score: (A, A) -> Option<real>, pairs: seq<Pair>, c: Candidate) {
    exists p :: p in pairs && Blocks(source, target, score, p, c)
  }

  /** A renamed pair that was a candidate. */
  ghost predicate WasCandidate<A>(source: seq<A>, target: seq<A>, score: (A, A) -> Option<real>,
                                  usedSource: set<nat>, usedTarget: set<nat>, p: Pair) {
    exists c :: IsCandidate(source, target, score, usedSource, usedTarget, c) && c.si == p.si && c.ti == p.ti
  }

  method GreedyPass<A>(source: seq<A>, target: seq<A>, candidates: seq<Candidate>, score: (A, A) -> Option<real>,
                       matched: seq<Match<A>>, usedSource: set<nat>, usedTarget: set<nat>, pairs: seq<Pair>)
    returns (matched': seq<Match<A>>, usedSource': set<nat>, usedTarget': set<nat>, pairs': seq<Pair>)
    requires Books(source, target, pairs, matched, usedSource, usedTarget) && Descending(candidates)
    requires forall c | c in candidates :: IsCandidate(source, target, score, usedSource, usedTarget, c)
    ensures Books(source, target, pairs', matched', usedSource', usedTarget')
    ensures pairs <= pairs' && forall p | p in pairs'[|pairs|..] ::
      p.renamed && WasCandidate(source, target, score, usedSource, usedTarget, p)
    ensures forall c | c in candidates :: Settled(source, target, score, pairs'[|pairs|..], c)
  {
    matched', usedSource', usedTarget', pairs' := matched, usedSource, usedTarget, pairs;
    ghost var fuzzy: seq<Pair> := [];
    for k := 0 to |candidates|
      invariant pairs' == pairs + fuzzy && Books(source, target, pairs', matched', usedSource', usedTarget')
      invariant forall p | p in fuzzy :: p.renamed && WasCandidate(source, target, score, usedSource, usedTarget, p)
      invariant forall p, j | p in fuzzy && k <= j < |candidates| ::
        score(source[p.si], target[p.ti]).value >= candidates[j].score
      invariant forall j | 0 <= j < k :: Settled(source, target, score, fuzzy, candidates[j])
    {
      var c := candidates[k];
      assert c in candidates;
      if c.si in usedSource' || c.ti in usedTarget' {
        TakenByFuzzy(source, target, score, usedSource, usedTarget, pairs, fuzzy, c);
      } else {
        var p := Pair(c.si, c.ti, true);
        BooksGrow(source, target, pairs', matched', usedSource', usedTarget', p);
        SettledGrows(source, target, score, fuzzy, p, candidates[..k]);
        assert Blocks(source, target, score, p, c) && p in fuzzy + [p];
        assert IsCandidate(source, target, score, usedSource, usedTarget, c);
        fuzzy, pairs' := fuzzy + [p], pairs' + [p];
        matched' := matched' + [Match(source[c.si], target[c.ti], true)];
        usedSource', usedTarget' := usedSource' + {c.si}, usedTarget' + {c.ti};
      }
    }
  }

  lemma SettledGrows<A>(source: seq<A>, target: seq<A>, score: (A, A) -> Option<real>, fuzzy: seq<Pair>, p: Pair,
                        candidates: seq<Candidate>)
    requires forall c | c in candidates :: Settled(source, target, score, fuzzy, c)
    ensures forall c | c in candidates :: Settled(source, target, score, fuzzy + [p], c)
  {
    forall c | c in candidates ensures Settled(source, target, score, fuzzy + [p], c) {
      var q :| q in fuzzy && Blocks(source, target, score, q, c);
      assert q in fuzzy + [p];
    }
  }

  /** A candidate that is passed over was beaten by a match of this pass. */
  lemma TakenByFuzzy<A>(source: seq<A>, target: seq<A>, score: (A, A) -> Option<real>,
                        usedSource: set<nat>, usedTarget: set<nat>, pairs: seq<Pair>, fuzzy: seq<Pair>, c: Candidate)
    requires usedSource == Sources(pairs) && usedTarget == Targets(pairs)
    requires IsCandidate(source, target, score, usedSource, usedTarget, c)
    requires c.si in Sources(pairs + fuzzy) || c.ti in Targets(pairs + fuzzy)
    requires forall p | p in fuzzy :: p.renamed && WasCandidate(source, target, score, usedSource, usedTarget, p)
    requires forall p | p in fuzzy :: p.si < |source| && p.ti < |target| && score(source[p.si], target[p.ti]).Some?
                                      && score(source[p.si], target[p.ti]).value >= c.score
    ensures Settled(source, target, score, fuzzy, c)
  {
    var p :| p in pairs + fuzzy && (p.si == c.si || p.ti == c.ti);
    assert p !in pairs;
    assert Blocks(source, target, score, p, c);
  }

  // --- both passes ---

  /** What is not used, in order. */
  function Unmatched<A>(s: seq<A>, used: set<nat>): seq<A> {
    if s == [] then []
    else Unmatched(s[..|s| - 1], used) + UnmatchedLast(s, used)
  }

  function UnmatchedLast<A>(s: seq<A>, used: set<nat>): seq<A>
    requires s != []
  {
    if |s| - 1 in used then [] else [s[|s| - 1]]
  }

  method CollectUnmatched<A>(s: seq<A>, used: set<nat>) returns (rest: seq<A>)
    ensures rest == Unmatched(s, used)
  {
    rest := [];
    for i := 0 to |s|
      invariant rest == Unmatched(s[..i], used)
    {
      assert s[..i + 1][..i] == s[..i];
      if i !in used {
        rest := rest + [s[i]];
      }
    }
    assert s[..|s|] == s;
  }

  /** Matched candidates such that every candidate is matched, or beaten or tied by a match of one of its ends. */
  ghost predicate IsGreedy<A(!new)>(source: seq<A>, target: seq<A>, score: (A, A) -> Option<real>,
                                    usedSource: set<nat>, usedTarget: set<nat>, fuzzy: seq<Pair>) {
    && (forall p | p in fuzzy :: p.renamed && WasCandidate(source, target, score, usedSource, usedTarget, p))
    && (forall c {:trigger Settled(source, target, score, fuzzy, c)} |
          IsCandidate(source, target, score, usedSource, usedTarget, c) :: Settled(source, target, score, fuzzy, c))
  }

  /** A matching whose first exact pairs are the exact matches. */
  ghost predicate IsMatching<A(!new)>(source: seq<A>, target: seq<A>, same: (A, A) -> bool, score: (A, A) -> Option<real>,
                                      pairs: seq<Pair>, exact: nat) {
    && exact <= |pairs| && InRange(source, target, pairs) && OneToOne(pairs)
    && ExactOnly(source, target, same, pairs[..exact])
    && pairs[..exact] == ExactPairs(source, target, same, |source|)
    && ExactIsExhaustive(source, target, same, |source|, Sources(pairs[..exact]), Targets(pairs[..exact]))
    && IsGreedy(source, target, score, Sources(pairs[..exact]), Targets(pairs[..exact]), pairs[exact..])
  }

  method FindMatches<A(!new)>(source: seq<A>, target: seq<A>, same: (A, A) -> bool, score: (A, A) -> Option<real>)
    returns (matched: seq<Match<A>>, added: seq<A>, removed: seq<A>, pairs: seq<Pair>, exact: nat)
    ensures IsMatching(source, target, same, score, pairs, exact) && Shows(source, target, pairs, matched)
    ensures removed == Unmatched(source, Sources(pairs)) && added == Unmatched(target, Targets(pairs))
  {
    var usedSource, usedTarget;
    matched, usedSource, usedTarget, pairs := ExactPass(source, target, same);
    exact := |pairs|;
    var candidates := FindCandidates(source, target, usedSource, usedTarget, score);
    var sorted := SortByScore(candidates);
    assert forall c :: c in sorted <==> c in multiset(candidates);
    ghost var first := pairs;
    matched, usedSource, usedTarget, pairs := GreedyPass(source, target, sorted, score, matched, usedSource, usedTarget, pairs);
    assert pairs[..exact] == first;
    removed := CollectUnmatched(source, usedSource);
    added := CollectUnmatched(target, usedTarget);
  }

  function SourcesOf<A>(matched: seq<Match<A>>): (r: seq<A>)
    ensures |r| == |matched| && forall k | 0 <= k < |r| :: r[k] == matched[k].source
  {
    if matched == [] then [] else SourcesOf(matched[..|matched| - 1]) + [matched[|matched| - 1].source]
  }

  function TargetsOf<A>(matched: seq<Match<A>>): (r: seq<A>)
    ensures |r| == |matched| && forall k | 0 <= k < |r| :: r[k] == matched[k].target
  {
    if matched == [] then [] else TargetsOf(matched[..|matched| - 1]) + [matched[|matched| - 1].target]
  }
}
