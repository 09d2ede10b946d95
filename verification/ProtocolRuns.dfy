/** How what the callers of the API record fits together with the runs of the protocol: what all
    callers record of one history, with what happens outside, is a run; and what any caller records
    of a run is a chain of its own effects and of foreign work that it can rely on. */
module ProtocolRuns {
  import opened Wrappers
  import opened ExperimentWorld
  import opened ProtocolInvariant
  import opened ProtocolSafety
  import opened ApiClient

  /** What a client has recorded. */
  datatype View = View(trace: seq<World>, moves: seq<Option<Effect>>)

  /** The client has recorded this effect of its own, between these two states. */
  ghost predicate Recorded(v: View, w: World, w': World, eff: Effect) {
    exists k: nat :: RecordedAt(v, w, w', eff, k)
  }

  predicate RecordedAt(v: View, w: World, w': World, eff: Effect, k: nat) {
    && k < |v.moves| && |v.trace| == |v.moves| + 1
    && v.moves[k] == Some(eff) && v.trace[k] == w && v.trace[k + 1] == w'
  }

  ghost predicate Explained(w: World, w': World, a: Action, views: map<Name, View>) {
    match a
    case Elsewhere(o) => Allowed(w, o) && w' == Happen(w, o)
    case By(e, eff) => e in views && Recorded(views[e], w, w', eff)
  }

  ghost predicate ExplainedAt(ws: seq<World>, acts: seq<Action>, views: map<Name, View>, i: nat)
    requires |ws| == |acts| + 1 && i < |acts|
  {
    Explained(ws[i], ws[i + 1], acts[i], views)
  }

  ghost predicate IsView(views: map<Name, View>, e: Name)
    requires e in views
  {
    Chained(e, views[e].trace, views[e].moves)
  }

  /** A history in which every step is recorded by the client that took it, or happened outside. */
  ghost predicate IsHistory(ws: seq<World>, acts: seq<Action>, views: map<Name, View>) {
    && |ws| == |acts| + 1 && Initial(ws[0])
    && (forall i {:trigger ws[i]} | 0 <= i < |ws| :: Timely(ws[i]))
    && (forall e {:trigger IsView(views, e)} | e in views :: IsView(views, e))
    && (forall i: nat {:trigger ExplainedAt(ws, acts, views, i)} | i < |acts| :: ExplainedAt(ws, acts, views, i))
  }

  lemma RecordedIsEnabled(e: Name, v: View, w: World, w': World, eff: Effect)
    requires Chained(e, v.trace, v.moves) && Recorded(v, w, w', eff)
    ensures Enabled(w, e, eff) && w' == Apply(w, e, eff)
  {
    var k: nat :| RecordedAt(v, w, w', eff, k);
    assert MovesAt(e, v.trace, v.moves, k);
  }

  /** What the clients record together is a run. */
  lemma HistoryIsRun(ws: seq<World>, acts: seq<Action>, views: map<Name, View>)
    requires IsHistory(ws, acts, views)
    ensures IsRun(ws, acts)
  {
    forall i | 0 <= i < |acts| ensures CanStep(ws[i], acts[i]) && ws[i + 1] == Step(ws[i], acts[i]) {
      assert ExplainedAt(ws, acts, views, i);
      if acts[i].By? {
        assert IsView(views, acts[i].who);
        RecordedIsEnabled(acts[i].who, views[acts[i].who], ws[i], ws[i + 1], acts[i].eff);
      }
    }
  }

  /** The view v of client e holds the states of the run at the given places.  Between two of them lies
      one effect of e, or any number of steps of others. */
  ghost predicate Samples(ws: seq<World>, acts: seq<Action>, e: Name, v: View, at: seq<nat>)
    requires IsRun(ws, acts)
  {
    && |at| == |v.trace| == |v.moves| + 1
    && (forall k | 0 <= k < |at| :: at[k] < |ws| && v.trace[k] == ws[at[k]])
    && (forall k: nat {:trigger SampledAt(acts, e, v, at, k)} | k < |v.moves| :: SampledAt(acts, e, v, at, k))
  }

  ghost predicate SampledAt(acts: seq<Action>, e: Name, v: View, at: seq<nat>, k: nat)
    requires |at| == |v.moves| + 1 && k < |v.moves|
  {
    if v.moves[k].Some? then at[k] < |acts| && at[k + 1] == at[k] + 1 && acts[at[k]] == By(e, v.moves[k].value)
    else at[k] <= at[k + 1] <= |acts| && forall j | at[k] <= j < at[k + 1] :: acts[j].By? ==> acts[j].who != e
  }

  /** What a client sees of a run is what its methods allow for. */
  lemma SampledIsChained(ws: seq<World>, acts: seq<Action>, e: Name, v: View, at: seq<nat>)
    requires IsRun(ws, acts) && Samples(ws, acts, e, v, at)
    ensures Chained(e, v.trace, v.moves)
    ensures forall k | 0 <= k < |v.trace| :: Inv(v.trace[k]) && Timely(v.trace[k])
  {
    forall k: nat | k < |v.moves| ensures MovesAt(e, v.trace, v.moves, k) {
      assert SampledAt(acts, e, v, at, k);
      assert v.trace[k] == ws[at[k]] && v.trace[k + 1] == ws[at[k + 1]];
      if v.moves[k].None? {
        OthersKeepRely(ws, acts, at[k], at[k + 1], e);
      }
    }
    forall k | 0 <= k < |v.trace| ensures Inv(v.trace[k]) && Timely(v.trace[k]) {
      RunKeepsInv(ws, acts, at[k]);
    }
  }

  // --- every run is such a history ---

  function MoveOf(a: Action, e: Name): Option<Effect> {
    if a.By? && a.who == e then Some(a.eff) else None
  }

  /** The view that misses nothing. */
  function ViewOf(ws: seq<World>, acts: seq<Action>, e: Name): View {
    View(ws, seq(|acts|, i requires 0 <= i < |acts| => MoveOf(acts[i], e)))
  }

  function Movers(acts: seq<Action>): set<Name> {
    set a | a in acts && a.By? :: a.who
  }

  lemma FullViewIsChained(ws: seq<World>, acts: seq<Action>, e: Name)
    requires IsRun(ws, acts)
    ensures Chained(e, ViewOf(ws, acts, e).trace, ViewOf(ws, acts, e).moves)
  {
    var v, at := ViewOf(ws, acts, e), seq(|ws|, i => i);
    forall k: nat | k < |v.moves| ensures SampledAt(acts, e, v, at, k) {
      assert v.moves[k] == MoveOf(acts[k], e) && at[k] == k && at[k + 1] == k + 1;
    }
    SampledIsChained(ws, acts, e, v, at);
  }

  /** A sequence of states and actions is a run if and only if it is what some clients record together. */
  lemma RunIffHistory(ws: seq<World>, acts: seq<Action>)
    ensures IsRun(ws, acts) <==> exists views :: IsHistory(ws, acts, views)
  {
    if IsRun(ws, acts) {
      var views := map e | e in Movers(acts) :: ViewOf(ws, acts, e);
      forall e | e in views ensures IsView(views, e) {
        FullViewIsChained(ws, acts, e);
      }
      forall i: nat | i < |acts| ensures ExplainedAt(ws, acts, views, i) {
        assert CanStep(ws[i], acts[i]) && ws[i + 1] == Step(ws[i], acts[i]);
        if acts[i].By? {
          assert acts[i] in acts && acts[i].who in Movers(acts);
          assert RecordedAt(views[acts[i].who], ws[i], ws[i + 1], acts[i].eff, i);
        }
      }
      assert IsHistory(ws, acts, views);
    }
    if views :| IsHistory(ws, acts, views) {
      HistoryIsRun(ws, acts, views);
    }
  }
}
