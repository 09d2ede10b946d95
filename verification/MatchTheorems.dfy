/** What every matching conserves, and what decides it. */
module MatchTheorems {
  import opened Wrappers
  import opened Match

  // --- conservation ---

  lemma {:induction false} UseOne<A>(s: seq<A>, used: set<nat>, i: nat)
    requires i < |s| && i !in used
    ensures multiset(Unmatched(s, used)) == multiset(Unmatched(s, used + {i})) + multiset{s[i]}
  {
    var before, used' := s[..|s| - 1], used + {i};
    if i < |before| {
      UseOne(before, used, i);
      assert before[i] == s[i] && UnmatchedLast(s, used) == UnmatchedLast(s, used');
      AppendBoth(Unmatched(before, used), Unmatched(before, used'), UnmatchedLast(s, used), s[i]);
    } else {
      SameUse(before, used, used');
      assert UnmatchedLast(s, used') == [] && UnmatchedLast(s, used) == [s[i]];
      AppendOne(Unmatched(before, used), s[i]);
    }
  }

  lemma AppendOne<A>(a: seq<A>, x: A)
    ensures multiset(a + [x]) == multiset(a + []) + multiset{x}
  {
    assert a + [] == a;
  }

  lemma AppendBoth<A>(a: seq<A>, b: seq<A>, end: seq<A>, x: A)
    requires multiset(a) == multiset(b) + multiset{x}
    ensures multiset(a + end) == multiset(b + end) + multiset{x}
  {
  }

  lemma {:induction false} SameUse<A>(s: seq<A>, used: set<nat>, used': set<nat>)
    requires forall i: nat | i < |s| :: i in used <==> i in used'
    ensures Unmatched(s, used) == Unmatched(s, used')
  {
    if s != [] { SameUse(s[..|s| - 1], used, used'); }
  }

  lemma {:induction false} UseNone<A>(s: seq<A>)
    ensures Unmatched(s, {}) == s
  {
    if s != [] {
      UseNone(s[..|s| - 1]);
      assert s[..|s| - 1] + [s[|s| - 1]] == s;
    }
  }

  /** The items at distinct positions of s. */
  lemma {:induction false} UseAll<A>(s: seq<A>, positions: seq<nat>)
    requires InBounds(s, positions)
    requires forall j, k | 0 <= j < k < |positions| :: positions[j] != positions[k]
    ensures multiset(s) == multiset(Items(s, positions)) + multiset(Unmatched(s, PositionSet(positions)))
  {
    if positions == [] {
      UseNone(s);
      assert PositionSet(positions) == {};
    } else {
      var last := |positions| - 1;
      UseAll(s, positions[..last]);
      AddPosition(positions);
      UseOne(s, PositionSet(positions[..last]), positions[last]);
    }
  }

  lemma AddPosition(positions: seq<nat>)
    requires positions != [] && forall j, k | 0 <= j < k < |positions| :: positions[j] != positions[k]
    ensures var last := |positions| - 1;
      && positions[last] !in PositionSet(positions[..last])
      && PositionSet(positions) == PositionSet(positions[..last]) + {positions[last]}
  {
    assert positions == positions[..|positions| - 1] + [positions[|positions| - 1]];
  }

  function PositionSet(positions: seq<nat>): set<nat> {
    set p | p in positions
  }

  ghost predicate InBounds<A>(s: seq<A>, positions: seq<nat>) {
    forall k | 0 <= k < |positions| :: positions[k] < |s|
  }

  ghost function Items<A>(s: seq<A>, positions: seq<nat>): (r: seq<A>)
    requires InBounds(s, positions)
    ensures |r| == |positions| && forall k | 0 <= k < |r| :: r[k] == s[positions[k]]
  {
    if positions == [] then [] else Items(s, positions[..|positions| - 1]) + [s[positions[|positions| - 1]]]
  }

  /** The positions at one side of the pairs. */
  function Side(pairs: seq<Pair>, ofSource: bool): (r: seq<nat>)
    ensures |r| == |pairs| && forall k | 0 <= k < |r| :: r[k] == if ofSource then pairs[k].si else pairs[k].ti
  {
    if pairs == [] then []
    else Side(pairs[..|pairs| - 1], ofSource) +
         [if ofSource then pairs[|pairs| - 1].si else pairs[|pairs| - 1].ti]
  }

  lemma SideSet(pairs: seq<Pair>, ofSource: bool)
    ensures PositionSet(Side(pairs, ofSource)) == if ofSource then Sources(pairs) else Targets(pairs)
  {
    var side := Side(pairs, ofSource);
    forall p | p in pairs ensures (if ofSource then p.si else p.ti) in side {
      var k :| 0 <= k < |pairs| && pairs[k] == p;
      assert side[k] == if ofSource then p.si else p.ti;
    }
    forall i | i in side ensures i in if ofSource then Sources(pairs) else Targets(pairs) {
      var k :| 0 <= k < |side| && side[k] == i;
      assert pairs[k] in pairs;
    }
  }

  /** Each source is matched once or removed, each target matched once or added. */
  lemma NothingIsLost<A(!new)>(source: seq<A>, target: seq<A>, pairs: seq<Pair>, matched: seq<Match<A>>)
    requires InRange(source, target, pairs) && OneToOne(pairs) && Shows(source, target, pairs, matched)
    ensures multiset(source) == multiset(SourcesOf(matched)) + multiset(Unmatched(source, Sources(pairs)))
    ensures multiset(target) == multiset(TargetsOf(matched)) + multiset(Unmatched(target, Targets(pairs)))
  {
    forall k | 0 <= k < |pairs| ensures pairs[k].si < |source| && pairs[k].ti < |target| { assert pairs[k] in pairs; }
    SideSet(pairs, true);
    SideSet(pairs, false);
    UseAll(source, Side(pairs, true));
    UseAll(target, Side(pairs, false));
    assert Items(source, Side(pairs, true)) == SourcesOf(matched);
    assert Items(target, Side(pairs, false)) == TargetsOf(matched);
  }

  // --- nothing was missed ---

  /** A pair that is not matched, though neither end has an exact match and it scores high enough,
      loses to a match of one of its ends that scores at least as high. */
  lemma NoBlockingPair<A(!new)>(source: seq<A>, target: seq<A>, same: (A, A) -> bool, score: (A, A) -> Option<real>,
                                pairs: seq<Pair>, exact: nat, i: nat, j: nat) returns (p: Pair)
    requires IsMatching(source, target, same, score, pairs, exact)
    requires i < |source| && j < |target| && i !in Sources(pairs[..exact]) && j !in Targets(pairs[..exact])
    requires score(source[i], target[j]).Some? && score(source[i], target[j]).value >= SIMILARITY_THRESHOLD
    ensures p in pairs && (p.si == i || p.ti == j) && p.si < |source| && p.ti < |target|
    ensures score(source[p.si], target[p.ti]).Some?
    ensures score(source[p.si], target[p.ti]).value >= score(source[i], target[j]).value
  {
    p := Blocker(source, target, score, Sources(pairs[..exact]), Targets(pairs[..exact]), pairs[exact..],
                 Candidate(i, j, score(source[i], target[j]).value));
  }

  lemma Blocker<A(!new)>(source: seq<A>, target: seq<A>, score: (A, A) -> Option<real>,
                         usedSource: set<nat>, usedTarget: set<nat>, fuzzy: seq<Pair>, c: Candidate) returns (p: Pair)
    requires IsGreedy(source, target, score, usedSource, usedTarget, fuzzy)
    requires IsCandidate(source, target, score, usedSource, usedTarget, c)
    ensures p in fuzzy && Blocks(source, target, score, p, c)
  {
    assert Settled(source, target, score, fuzzy, c);
    p :| p in fuzzy && Blocks(source, target, score, p, c);
  }

  /** A source and a target that both stay unmatched are neither the same nor similar enough. */
  lemma NothingWasMissed<A(!new)>(source: seq<A>, target: seq<A>, same: (A, A) -> bool, score: (A, A) -> Option<real>,
                                  pairs: seq<Pair>, exact: nat, i: nat, j: nat)
    requires IsMatching(source, target, same, score, pairs, exact)
    requires i < |source| && j < |target| && i !in Sources(pairs) && j !in Targets(pairs)
    ensures !same(source[i], target[j])
    ensures score(source[i], target[j]).Some? ==> score(source[i], target[j]).value < SIMILARITY_THRESHOLD
  {
    assert forall p | p in pairs[..exact] :: p in pairs;
    if score(source[i], target[j]).Some? && score(source[i], target[j]).value >= SIMILARITY_THRESHOLD {
      var p := NoBlockingPair(source, target, same, score, pairs, exact, i, j);
      assert false;
    }
  }

  // --- what decides the matching ---

  /** No two different candidate pairs score the same. */
  ghost predicate NoTies<A(!new)>(source: seq<A>, target: seq<A>, score: (A, A) -> Option<real>,
                                  usedSource: set<nat>, usedTarget: set<nat>) {
    forall c, d | IsCandidate(source, target, score, usedSource, usedTarget, c)
                  && IsCandidate(source, target, score, usedSource, usedTarget, d) && c.score == d.score :: c == d
  }

  function Score<A>(source: seq<A>, target: seq<A>, score: (A, A) -> Option<real>, p: Pair): real {
    if p.si < |source| && p.ti < |target| && score(source[p.si], target[p.ti]).Some?
    then score(source[p.si], target[p.ti]).value else 0.0
  }

  lemma HighestOf<A>(source: seq<A>, target: seq<A>, score: (A, A) -> Option<real>, ps: set<Pair>) returns (p: Pair)
    requires ps != {}
    ensures p in ps && forall q | q in ps :: Score(source, target, score, q) <= Score(source, target, score, p)
  {
    p :| p in ps;
    var rest := ps - {p};
    while rest != {}
      invariant rest <= ps && p in ps
      invariant forall q | q in ps - rest :: Score(source, target, score, q) <= Score(source, target, score, p)
      decreases |rest|
    {
      var q :| q in rest;
      if Score(source, target, score, q) > Score(source, target, score, p) { p := q; }
      rest := rest - {q};
    }
  }

  /** A match that another greedy choice does not have is beaten there by a higher one,
      which the first in turn does not have. */
  lemma Beaten<A(!new)>(source: seq<A>, target: seq<A>, score: (A, A) -> Option<real>,
                        usedSource: set<nat>, usedTarget: set<nat>, x: seq<Pair>, y: seq<Pair>, p: Pair) returns (q: Pair)
    requires IsGreedy(source, target, score, usedSource, usedTarget, x) && OneToOne(x)
    requires IsGreedy(source, target, score, usedSource, usedTarget, y)
    requires NoTies(source, target, score, usedSource, usedTarget)
    requires p in x && p !in y
    ensures q in y && q !in x && Score(source, target, score, q) > Score(source, target, score, p)
  {
    var c := CandidateOf(source, target, score, usedSource, usedTarget, x, p);
    q := Blocker(source, target, score, usedSource, usedTarget, y, c);
    var d := CandidateOf(source, target, score, usedSource, usedTarget, y, q);
    assert c != d;
    NotBoth(x, p, q);
  }

  lemma CandidateOf<A(!new)>(source: seq<A>, target: seq<A>, score: (A, A) -> Option<real>,
                             usedSource: set<nat>, usedTarget: set<nat>, fuzzy: seq<Pair>, p: Pair) returns (c: Candidate)
    requires IsGreedy(source, target, score, usedSource, usedTarget, fuzzy) && p in fuzzy
    ensures IsCandidate(source, target, score, usedSource, usedTarget, c) && p == Pair(c.si, c.ti, true)
    ensures Score(source, target, score, p) == c.score
  {
    assert p.renamed && WasCandidate(source, target, score, usedSource, usedTarget, p);
    c :| IsCandidate(source, target, score, usedSource, usedTarget, c) && c.si == p.si && c.ti == p.ti;
  }

  lemma NotBoth(x: seq<Pair>, p: Pair, q: Pair)
    requires OneToOne(x) && p in x && p != q && (p.si == q.si || p.ti == q.ti)
    ensures q !in x
  {
    var i :| 0 <= i < |x| && x[i] == p;
    assert forall j | 0 <= j < |x| :: x[j] == q ==> j != i;
  }

  lemma NoTiesDecideGreedy<A(!new)>(source: seq<A>, target: seq<A>, score: (A, A) -> Option<real>,
                                    usedSource: set<nat>, usedTarget: set<nat>, x: seq<Pair>, y: seq<Pair>)
    requires IsGreedy(source, target, score, usedSource, usedTarget, x) && OneToOne(x)
    requires IsGreedy(source, target, score, usedSource, usedTarget, y) && OneToOne(y)
    requires NoTies(source, target, score, usedSource, usedTarget)
    ensures forall p :: p in x <==> p in y
  {
    var apart := (set p | p in x && p !in y) + (set p | p in y && p !in x);
    if apart != {} {
      var p := HighestOf(source, target, score, apart);
      var q;
      if p in x {
        q := Beaten(source, target, score, usedSource, usedTarget, x, y, p);
      } else {
        q := Beaten(source, target, score, usedSource, usedTarget, y, x, p);
      }
      assert false;
    } else {
      forall p ensures p in x <==> p in y { assert p !in apart; }
    }
  }

  /** Without ties between candidates the matching does not depend on the order in which the sort
      leaves equal scores: any two outcomes match the same pairs. */
  lemma NoTiesDecide<A(!new)>(source: seq<A>, target: seq<A>, same: (A, A) -> bool, score: (A, A) -> Option<real>,
                              x: seq<Pair>, exactX: nat, y: seq<Pair>, exactY: nat)
    requires IsMatching(source, target, same, score, x, exactX) && IsMatching(source, target, same, score, y, exactY)
    requires NoTies(source, target, score, Sources(x[..exactX]), Targets(x[..exactX]))
    ensures exactX == exactY && forall p :: p in x <==> p in y
  {
    assert |x[..exactX]| == |y[..exactY]|;
    NoTiesDecideGreedy(source, target, score, Sources(x[..exactX]), Targets(x[..exactX]), x[exactX..], y[exactX..]);
    assert x == x[..exactX] + x[exactX..] && y == x[..exactX] + y[exactX..];
  }
}
