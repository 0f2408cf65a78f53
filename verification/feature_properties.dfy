/** Properties of the feature graph: what invalidation and `Reset` mark
    dirty, memoisation of `GetOutput`, the first-input-only search, and the
    mirrored-edge invariant of the graph builder. */
module FeatureProperties {
  import opened Wrappers
  import opened Features

  // ---------------------------------------------------------------------------
  // Reachability along dependents, defined by paths
  // ---------------------------------------------------------------------------

  /** `p` is a walk along the edges of `e`. */
  ghost predicate IsPath(e: Edges, p: seq<Ref>) {
    && |p| > 0
    && (forall i :: 0 <= i < |p| ==> p[i] in e)
    && (forall i :: 0 <= i < |p| - 1 ==> p[i + 1] in e[p[i]])
  }

  /** `b` can be reached from `a` in zero or more steps. */
  ghost predicate Reaches(e: Edges, a: Ref, b: Ref) {
    exists p :: IsPath(e, p) && p[0] == a && p[|p| - 1] == b
  }

  /** `b` can be reached from one of `ds`. */
  ghost predicate ReachesAny(e: Edges, ds: seq<Ref>, b: Ref) {
    exists j :: 0 <= j < |ds| && Reaches(e, ds[j], b)
  }

  lemma ReachesAnyCons(e: Edges, ds: seq<Ref>, b: Ref)
    requires |ds| > 0
    ensures ReachesAny(e, ds, b) <==> Reaches(e, ds[0], b) || ReachesAny(e, ds[1..], b)
  {
    if ReachesAny(e, ds, b) {
      var j :| 0 <= j < |ds| && Reaches(e, ds[j], b);
      if j > 0 {
        assert ds[1..][j - 1] == ds[j];
      }
    }
    if ReachesAny(e, ds[1..], b) {
      var j :| 0 <= j < |ds[1..]| && Reaches(e, ds[1..][j], b);
      assert ds[j + 1] == ds[1..][j];
    }
  }

  /** Reaching `b` from `a` means `b` is `a` or is reached from one of `a`'s
      successors. */
  lemma ReachesUnfold(e: Edges, a: Ref, b: Ref)
    requires a in e
    ensures Reaches(e, a, b) <==> a == b || ReachesAny(e, e[a], b)
  {
    if Reaches(e, a, b) && a != b {
      var p :| IsPath(e, p) && p[0] == a && p[|p| - 1] == b;
      var q := p[1..];
      assert IsPath(e, q) && q[0] == p[1] && q[|q| - 1] == b;
      var j :| 0 <= j < |e[a]| && e[a][j] == p[1];
    }
    if a == b {
      assert IsPath(e, [a]);
    }
    if ReachesAny(e, e[a], b) {
      var j :| 0 <= j < |e[a]| && Reaches(e, e[a][j], b);
      var q :| IsPath(e, q) && q[0] == e[a][j] && q[|q| - 1] == b;
      var p := [a] + q;
      assert IsPath(e, p) && p[0] == a && p[|p| - 1] == b;
    }
  }

  /** Two arenas that differ from `g` only in flags, and agree on every
      flag, are the same arena. */
  lemma FlagsDetermine(g: Arena, a: Arena, b: Arena)
    requires FlagsOnly(g, a) && FlagsOnly(g, b)
    requires forall k :: k in g ==> a[k].dirty == b[k].dirty
    ensures a == b
  {
  }

  // ---------------------------------------------------------------------------
  // Invalidation marks exactly the reachable dependents
  // ---------------------------------------------------------------------------

  /** `SetDirtyFlag(true)` on `r` leaves a node dirty exactly when it was
      dirty before or is `r` or one of its transitive dependents. */
  lemma {:induction false} InvalidateMarksReachable(g: Arena, r: Ref, rank: map<Ref, nat>)
    requires r in g && Ranked(DependentEdges(g), rank)
    ensures forall k :: k in g ==>
      (Invalidate(g, r, rank)[k].dirty <==> g[k].dirty || Reaches(DependentEdges(g), r, k))
    decreases rank[r], 1
  {
    var e := DependentEdges(g);
    assert r in e;
    var g1 := g[r := g[r].(dirty := true)];
    FlagsOnlyKeepsEdges(g, g1);
    InvalidateAllMarksReachable(g1, g[r].dependents, rank, rank[r]);
    forall k | k in g
      ensures Invalidate(g, r, rank)[k].dirty <==> g[k].dirty || Reaches(e, r, k)
    {
      ReachesUnfold(e, r, k);
    }
  }

  lemma {:induction false} InvalidateAllMarksReachable(g: Arena, ds: seq<Ref>, rank: map<Ref, nat>, bound: nat)
    requires Ranked(DependentEdges(g), rank)
    requires forall j :: 0 <= j < |ds| ==> ds[j] in g && ds[j] in rank && rank[ds[j]] < bound
    ensures forall k :: k in g ==>
      (InvalidateAll(g, ds, rank, bound)[k].dirty <==> g[k].dirty || ReachesAny(DependentEdges(g), ds, k))
    decreases bound, 0, |ds|
  {
    if ds != [] {
      var e := DependentEdges(g);
      var g1 := Invalidate(g, ds[0], rank);
      InvalidateMarksReachable(g, ds[0], rank);
      FlagsOnlyKeepsEdges(g, g1);
      InvalidateAllMarksReachable(g1, ds[1..], rank, bound);
      forall k | k in g
        ensures InvalidateAll(g, ds, rank, bound)[k].dirty <==> g[k].dirty || ReachesAny(e, ds, k)
      {
        ReachesAnyCons(e, ds, k);
      }
    }
  }

  /** `SetDirtyFlag(true)` makes the node and everything reachable through
      `dependents` dirty, and changes no other flag and nothing but flags. */
  lemma SetDirtyFlagTrueCascades(g: Arena, r: Ref, rank: map<Ref, nat>)
    requires r in g && Ranked(DependentEdges(g), rank)
    ensures FlagsOnly(g, SetDirtyFlag(g, r, true, rank))
    ensures forall k :: k in g ==>
      (SetDirtyFlag(g, r, true, rank)[k].dirty <==> g[k].dirty || Reaches(DependentEdges(g), r, k))
  {
    InvalidateMarksReachable(g, r, rank);
  }

  /** `SetDirtyFlag(false)` clears the node's own flag and touches nothing
      else, however many dependents it has. */
  lemma SetDirtyFlagFalseIsLocal(g: Arena, r: Ref, rank: map<Ref, nat>)
    requires r in g
    ensures var g2 := SetDirtyFlag(g, r, false, rank);
      && g2.Keys == g.Keys
      && !g2[r].dirty && g2[r].dependents == g[r].dependents && g2[r].cache == g[r].cache
      && forall k :: k in g && k != r ==> g2[k].dirty == g[k].dirty
  {
  }

  // ---------------------------------------------------------------------------
  // Reset
  // ---------------------------------------------------------------------------

  /** Invalidating nodes whose reachable dependents are all dirty already
      changes nothing. */
  lemma InvalidateAllAbsorbed(g: Arena, ds: seq<Ref>, rank: map<Ref, nat>, bound: nat)
    requires Ranked(DependentEdges(g), rank)
    requires forall j :: 0 <= j < |ds| ==> ds[j] in g && ds[j] in rank && rank[ds[j]] < bound
    requires forall k :: k in g && ReachesAny(DependentEdges(g), ds, k) ==> g[k].dirty
    ensures InvalidateAll(g, ds, rank, bound) == g
  {
    InvalidateAllMarksReachable(g, ds, rank, bound);
    assert FlagsOnly(g, g);
    FlagsDetermine(g, InvalidateAll(g, ds, rank, bound), g);
  }

  /** `Reset()` ends in exactly the state `SetDirtyFlag(true)` produces: the
      node and its transitive dependents are dirty, nothing else changes. */
  lemma {:induction false} ResetIsInvalidate(g: Arena, r: Ref, rank: map<Ref, nat>)
    requires r in g && Ranked(DependentEdges(g), rank)
    ensures Reset(g, r, rank) == SetDirtyFlag(g, r, true, rank)
    decreases rank[r], 1
  {
    var e := DependentEdges(g);
    assert r in e;
    var h := Invalidate(g, r, rank);
    FlagsOnlyKeepsEdges(g, h);
    ResetAllIsInvalidateAll(h, g[r].dependents, rank, rank[r]);
    InvalidateMarksReachable(g, r, rank);
    forall k | k in h && ReachesAny(e, e[r], k)
      ensures h[k].dirty
    {
      ReachesUnfold(e, r, k);
    }
    InvalidateAllAbsorbed(h, g[r].dependents, rank, rank[r]);
  }

  lemma {:induction false} ResetAllIsInvalidateAll(g: Arena, ds: seq<Ref>, rank: map<Ref, nat>, bound: nat)
    requires Ranked(DependentEdges(g), rank)
    requires forall j :: 0 <= j < |ds| ==> ds[j] in g && ds[j] in rank && rank[ds[j]] < bound
    ensures ResetAll(g, ds, rank, bound) == InvalidateAll(g, ds, rank, bound)
    decreases bound, 0, |ds|
  {
    if ds != [] {
      ResetIsInvalidate(g, ds[0], rank);
      var g1 := Invalidate(g, ds[0], rank);
      FlagsOnlyKeepsEdges(g, g1);
      ResetAllIsInvalidateAll(g1, ds[1..], rank, bound);
    }
  }

  // ---------------------------------------------------------------------------
  // Memoisation
  // ---------------------------------------------------------------------------

  /** A second `GetOutput` with no invalidation in between does not
      recompute, returns the same vector and leaves the arena as it was —
      provided the first call left a non-empty cache. */
  lemma GetOutputMemoises(g: Arena, r: Ref, compute: Compute)
    requires r in g
    ensures var first := GetOutput(g, r, compute);
      first.output != [] ==>
        var second := GetOutput(first.arena, r, compute);
        && !second.computed
        && second.output == first.output
        && second.arena == first.arena
  {
  }

  /** A fresh node is dirty, so its first `GetOutput` computes; afterwards
      `HasOutput` holds. */
  lemma FreshNodeComputesOnFirstGet(g: Arena, r: Ref, instanceCount: nat, id: Option<string>,
                                    cls: Class, extras: seq<string>, inputs: seq<Ref>, compute: Compute)
    requires r !in g
    ensures var start := g[r := Construct(instanceCount, id, cls, extras, inputs).node];
      var first := GetOutput(start, r, compute);
      && !HasOutput(start, r)
      && first.computed
      && HasOutput(first.arena, r)
  {
  }

  /** `HasOutput` can hold while no output was ever computed: clearing the
      flag of a fresh node with `SetDirtyFlag(false)` makes `HasOutput` true
      with an empty cache, and the next `GetOutput` still computes. */
  lemma HasOutputWithoutCache(instanceCount: nat, cls: Class, compute: Compute)
    ensures var node := Construct(instanceCount, None, cls, [], []).node;
      var g := SetDirtyFlag(map[0 := node], 0, false, map[]);
      && HasOutput(g, 0)
      && g[0].cache == []
      && GetOutput(g, 0, compute).computed
  {
  }

  // ---------------------------------------------------------------------------
  // FindInputFeature
  // ---------------------------------------------------------------------------

  /** `p` follows first inputs from `p[0]`, every node after the start but
      before the end is not an input sentinel, and the end is one. */
  ghost predicate SentinelChain(g: Arena, p: seq<Ref>) {
    && |p| >= 2
    && (forall i :: 0 <= i < |p| ==> p[i] in g)
    && (forall i :: 0 <= i < |p| - 1 ==> |g[p[i]].inputs| > 0 && g[p[i]].inputs[0] == p[i + 1])
    && (forall i :: 1 <= i < |p| - 1 ==> !g[p[i]].cls.isInputFeature)
    && g[p[|p| - 1]].cls.isInputFeature
  }

  /** What `FindInputFeature` returns is the end of the first-input chain
      from `r` that stops at the first sentinel. */
  lemma {:induction false} FindInputFeatureSound(g: Arena, r: Ref, rank: map<Ref, nat>)
    requires r in g && FirstInputRanked(g, rank)
    requires FindInputFeature(g, r, rank).Some?
    ensures exists p :: SentinelChain(g, p) && p[0] == r && p[|p| - 1] == FindInputFeature(g, r, rank).value
    decreases rank[r]
  {
    var first := g[r].inputs[0];
    if g[first].cls.isInputFeature {
      assert SentinelChain(g, [r, first]);
    } else {
      FindInputFeatureSound(g, first, rank);
      var q :| SentinelChain(g, q) && q[0] == first && q[|q| - 1] == FindInputFeature(g, first, rank).value;
      SentinelChainCons(g, r, q);
      assert ([r] + q)[|[r] + q| - 1] == q[|q| - 1];
    }
  }

  /** A chain can be extended backwards by a node whose first input starts
      it, provided that start is not itself a sentinel. */
  lemma SentinelChainCons(g: Arena, r: Ref, q: seq<Ref>)
    requires SentinelChain(g, q) && r in g
    requires |g[r].inputs| > 0 && g[r].inputs[0] == q[0] && !g[q[0]].cls.isInputFeature
    ensures SentinelChain(g, [r] + q)
  {
    var p := [r] + q;
    assert forall i :: 1 <= i < |p| ==> p[i] == q[i - 1];
  }

  /** Whenever the first-input chain from `r` reaches a sentinel,
      `FindInputFeature` returns that sentinel. */
  lemma {:induction false} FindInputFeatureComplete(g: Arena, r: Ref, rank: map<Ref, nat>, p: seq<Ref>)
    requires r in g && FirstInputRanked(g, rank)
    requires SentinelChain(g, p) && p[0] == r
    ensures FindInputFeature(g, r, rank) == Some(p[|p| - 1])
    decreases |p|
  {
    var first := g[r].inputs[0];
    assert first == p[1];
    if !g[first].cls.isInputFeature {
      var q := p[1..];
      assert SentinelChain(g, q);
      FindInputFeatureComplete(g, first, rank, q);
    }
  }

  /** Everything `FindInputFeature` looks at: for each node, whether it is a
      sentinel and its first input, if any. */
  function FirstInputView(g: Arena): map<Ref, (bool, Option<Ref>)> {
    map k | k in g :: (g[k].cls.isInputFeature, if |g[k].inputs| == 0 then None else Some(g[k].inputs[0]))
  }

  /** `FindInputFeature` never inspects an input at index 1 or beyond: two
      arenas that agree on every node's sentinel tag and first input give the
      same answer, whatever their other inputs. */
  lemma {:induction false} FindInputFeatureIgnoresLaterInputs(g1: Arena, g2: Arena, r: Ref, rank: map<Ref, nat>)
    requires r in g1 && FirstInputRanked(g1, rank)
    requires FirstInputView(g1) == FirstInputView(g2)
    ensures r in g2 && FirstInputRanked(g2, rank)
    ensures FindInputFeature(g1, r, rank) == FindInputFeature(g2, r, rank)
    decreases rank[r]
  {
    assert g2.Keys == FirstInputView(g2).Keys == FirstInputView(g1).Keys == g1.Keys;
    forall k | k in g2
      ensures k in rank
      ensures |g2[k].inputs| > 0 ==> g2[k].inputs[0] in g2 && g2[k].inputs[0] in rank && rank[g2[k].inputs[0]] < rank[k]
    {
      assert FirstInputView(g1)[k] == FirstInputView(g2)[k];
    }
    assert FirstInputView(g1)[r] == FirstInputView(g2)[r];
    if |g1[r].inputs| > 0 {
      var first := g1[r].inputs[0];
      assert FirstInputView(g1)[first] == FirstInputView(g2)[first];
      FindInputFeatureIgnoresLaterInputs(g1, g2, first, rank);
    }
  }

  // ---------------------------------------------------------------------------
  // Building a graph
  // ---------------------------------------------------------------------------

  /** Adding `a` as an input of `b` and then `b` as a dependent of `a` keeps
      every input edge mirrored by a dependent edge. */
  lemma ConnectKeepsMirrored(g: Arena, a: Ref, b: Ref)
    requires Mirrored(g) && a in g && b in g
    ensures Mirrored(AddDependent(AddInputFeature(g, b, a), a, b))
  {
    var g1 := AddInputFeature(g, b, a);
    var g2 := AddDependent(g1, a, b);
    forall c, j | c in g2 && 0 <= j < |g2[c].inputs|
      ensures g2[c].inputs[j] in g2 && c in g2[g2[c].inputs[j]].dependents
    {
      var x := g2[c].inputs[j];
      if c == b && j == |g[b].inputs| {
        assert x == a;
      } else {
        assert j < |g[c].inputs| && x == g[c].inputs[j];
        assert c in g[x].dependents;
      }
    }
  }

  /** Adding an input alone breaks the invariant: the source does not pair
      the two edge updates itself, so whenever `b` is not yet a dependent of
      `a`, making `a` an input of `b` leaves an unmirrored edge. */
  lemma AddInputAloneUnmirrors(g: Arena, a: Ref, b: Ref)
    requires a in g && b in g && b !in g[a].dependents
    ensures !Mirrored(AddInputFeature(g, b, a))
  {
    var g2 := AddInputFeature(g, b, a);
    var j := |g[b].inputs|;
    assert g2[b].inputs[j] == a;
    assert g2[a].dependents == g[a].dependents;
  }
}
