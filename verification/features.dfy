/** The feature graph: nodes of a directed acyclic graph that each produce a
    cached output vector computed from their inputs, with lazy recomputation
    and push-based invalidation along the `dependents` back-edges.

    Nodes live in an arena (`Arena`, a map from handles to node records);
    the shared and back pointers of the C++ library become handles into it. */
module Features {
  import opened Wrappers
  import StringUtil

  /** A handle of a node in the arena (stands for a `shared_ptr<Feature>`). */
  type Ref = nat

  /** What a concrete feature class contributes to a node: its type tag
      (`FeatureType()`), its output width, whether it is the raw-input
      sentinel class (`InputFeature`), and, when the class overrides
      `WarmupTime`, the value its override returns. */
  datatype Class = Class(
    name: string,
    numColumns: nat,
    isInputFeature: bool,
    warmupOverride: Option<nat>)

  /** One feature node: identity, class, the subclass-specific description
      tokens (`AddToDescription`), ordered inputs, dependents (back-edges),
      the dirty flag and the cached output vector. */
  datatype Node = Node(
    id: string,
    cls: Class,
    extras: seq<string>,
    inputs: seq<Ref>,
    dependents: seq<Ref>,
    dirty: bool,
    cache: seq<real>)

  type Arena = map<Ref, Node>

  /** An adjacency list: the targets of every node's outgoing edges. */
  type Edges = map<Ref, seq<Ref>>

  function DependentEdges(g: Arena): (e: Edges)
    ensures e.Keys == g.Keys
  {
    map k | k in g :: g[k].dependents
  }

  function InputEdges(g: Arena): (e: Edges)
    ensures e.Keys == g.Keys
  {
    map k | k in g :: g[k].inputs
  }

  /** Every edge target is a node and lies strictly lower in `rank`: the
      edges are acyclic and `rank` witnesses it. The recursions of
      `Feature.cpp` terminate only on such graphs. */
  predicate Ranked(e: Edges, rank: map<Ref, nat>) {
    forall k :: k in e ==>
      && k in rank
      && forall j :: 0 <= j < |e[k]| ==> e[k][j] in e && e[k][j] in rank && rank[e[k][j]] < rank[k]
  }

  /** The first-input chain is acyclic, witnessed by `rank`. */
  predicate FirstInputRanked(g: Arena, rank: map<Ref, nat>) {
    forall k :: k in g ==>
      && k in rank
      && (|g[k].inputs| > 0 ==>
            g[k].inputs[0] in g && g[k].inputs[0] in rank && rank[g[k].inputs[0]] < rank[k])
  }

  /** `g2` differs from `g` at most in dirty flags. */
  ghost predicate FlagsOnly(g: Arena, g2: Arena) {
    && g2.Keys == g.Keys
    && forall k :: k in g ==> g2[k] == g[k].(dirty := g2[k].dirty)
  }

  lemma FlagsOnlyKeepsEdges(g: Arena, g2: Arena)
    requires FlagsOnly(g, g2)
    ensures DependentEdges(g2) == DependentEdges(g)
    ensures InputEdges(g2) == InputEdges(g)
  {
  }

  // ---------------------------------------------------------------------------
  // Construction
  // ---------------------------------------------------------------------------

  /** A freshly constructed node together with the process-wide instance
      count after its construction. */
  datatype Construction = Construction(node: Node, instanceCount: nat)

  /** The id the default constructor gives the node created when
      `instanceCount` nodes already exist. */
  function DefaultId(instanceCount: nat): string {
    "f_" + StringUtil.NatToDecimal(instanceCount)
  }

  /** The four constructors: with or without an explicit id, with or without
      inputs (`[]` for the constructors that take none). Every one of them
      bumps the instance count and leaves the node dirty with no cached
      output and no dependents. */
  function Construct(instanceCount: nat, id: Option<string>, cls: Class, extras: seq<string>, inputs: seq<Ref>)
    : (c: Construction)
    ensures c.instanceCount == instanceCount + 1
    ensures c.node.dirty && c.node.cache == [] && c.node.dependents == []
    ensures c.node.inputs == inputs && c.node.cls == cls && c.node.extras == extras
    ensures id.Some? ==> c.node.id == id.value
    ensures id.None? ==>
      && |c.node.id| > 2 && c.node.id[..2] == "f_" && StringUtil.AllDigits(c.node.id[2..])
      && StringUtil.DecimalValue(c.node.id[2..]) == instanceCount
      && (c.node.id[2] != '0' || |c.node.id| == 3)
  {
    var nodeId := match id case Some(s) => s case None => DefaultId(instanceCount);
    StringUtil.DecimalRoundTrip(instanceCount);
    assert id.None? ==> nodeId[2..] == StringUtil.NatToDecimal(instanceCount);
    Construction(Node(nodeId, cls, extras, inputs, [], true, []), instanceCount + 1)
  }

  /** Default ids handed out at different instance counts never collide. */
  lemma DefaultIdsDistinct(a: nat, b: nat)
    requires a != b
    ensures DefaultId(a) != DefaultId(b)
  {
    if DefaultId(a) == DefaultId(b) {
      assert DefaultId(a)[2..] == StringUtil.NatToDecimal(a);
      assert DefaultId(b)[2..] == StringUtil.NatToDecimal(b);
      StringUtil.NatToDecimalInjective(a, b);
    }
  }

  // ---------------------------------------------------------------------------
  // Graph construction primitives
  // ---------------------------------------------------------------------------

  /** Appends `input` to the inputs of node `r`; nothing else changes (in
      particular `input`'s dependents are not updated). */
  function AddInputFeature(g: Arena, r: Ref, input: Ref): (g2: Arena)
    requires r in g
    ensures g2.Keys == g.Keys
    ensures g2[r] == g[r].(inputs := g[r].inputs + [input])
    ensures forall k :: k in g && k != r ==> g2[k] == g[k]
  {
    g[r := g[r].(inputs := g[r].inputs + [input])]
  }

  /** Appends `dependent` to the dependents of node `r`; nothing else
      changes. */
  function AddDependent(g: Arena, r: Ref, dependent: Ref): (g2: Arena)
    requires r in g
    ensures g2.Keys == g.Keys
    ensures g2[r] == g[r].(dependents := g[r].dependents + [dependent])
    ensures forall k :: k in g && k != r ==> g2[k] == g[k]
  {
    g[r := g[r].(dependents := g[r].dependents + [dependent])]
  }

  /** Every input edge is mirrored by a dependent edge: when `b` has `a` as
      an input, `a` lists `b` among its dependents. */
  ghost predicate Mirrored(g: Arena) {
    forall b :: b in g ==>
      forall j :: 0 <= j < |g[b].inputs| ==> g[b].inputs[j] in g && b in g[g[b].inputs[j]].dependents
  }

  // ---------------------------------------------------------------------------
  // Output caching
  // ---------------------------------------------------------------------------

  /** `HasOutput()`: the node's dirty flag is clear. It says nothing about
      whether a cached output exists. */
  predicate HasOutput(g: Arena, r: Ref)
    requires r in g
  {
    !g[r].dirty
  }

  /** The subclass compute step (`ComputeOutput`), given the arena and the
      node it runs for. */
  type Compute = (Arena, Ref) -> seq<real>

  /** The outcome of `GetOutput`: the arena afterwards, the vector returned,
      and whether the compute step ran. */
  datatype Evaluation = Evaluation(arena: Arena, output: seq<real>, computed: bool)

  /** `GetOutput()`: recompute when the node is dirty or its cache is empty,
      then clear its own flag without cascading; return the cache. */
  function GetOutput(g: Arena, r: Ref, compute: Compute): (e: Evaluation)
    requires r in g
    ensures e.computed <==> g[r].dirty || g[r].cache == []
    ensures e.computed ==> e.output == compute(g, r)
    ensures !e.computed ==> e.arena == g && e.output == g[r].cache
    ensures e.arena.Keys == g.Keys
    ensures r in e.arena && !e.arena[r].dirty && e.arena[r].cache == e.output
    ensures e.arena[r] == g[r].(dirty := false, cache := e.output)
    ensures forall k :: k in g && k != r ==> e.arena[k] == g[k]
  {
    if g[r].dirty || |g[r].cache| == 0 then
      var v := compute(g, r);
      Evaluation(g[r := g[r].(cache := v, dirty := false)], v, true)
    else
      Evaluation(g, g[r].cache, false)
  }

  // ---------------------------------------------------------------------------
  // Invalidation
  // ---------------------------------------------------------------------------

  /** `SetDirtyFlag(true)` on node `r`: set its flag, then cascade to each
      dependent in order. */
  function Invalidate(g: Arena, r: Ref, rank: map<Ref, nat>): (g2: Arena)
    requires r in g && Ranked(DependentEdges(g), rank)
    ensures FlagsOnly(g, g2)
    ensures g2[r].dirty
    ensures forall k :: k in g && g[k].dirty ==> g2[k].dirty
    decreases rank[r], 1
  {
    assert r in DependentEdges(g);
    var g1 := g[r := g[r].(dirty := true)];
    FlagsOnlyKeepsEdges(g, g1);
    InvalidateAll(g1, g[r].dependents, rank, rank[r])
  }

  /** Cascades `SetDirtyFlag(true)` to each of `ds` in turn. */
  function InvalidateAll(g: Arena, ds: seq<Ref>, rank: map<Ref, nat>, bound: nat): (g2: Arena)
    requires Ranked(DependentEdges(g), rank)
    requires forall j :: 0 <= j < |ds| ==> ds[j] in g && ds[j] in rank && rank[ds[j]] < bound
    ensures FlagsOnly(g, g2)
    ensures forall k :: k in g && g[k].dirty ==> g2[k].dirty
    ensures forall j :: 0 <= j < |ds| ==> g2[ds[j]].dirty
    decreases bound, 0, |ds|
  {
    if ds == [] then g
    else
      var g1 := Invalidate(g, ds[0], rank);
      FlagsOnlyKeepsEdges(g, g1);
      InvalidateAll(g1, ds[1..], rank, bound)
  }

  /** `SetDirtyFlag(dirty)`: `true` cascades along the dependents, `false`
      only clears the node's own flag. */
  function SetDirtyFlag(g: Arena, r: Ref, dirty: bool, rank: map<Ref, nat>): (g2: Arena)
    requires r in g
    requires dirty ==> Ranked(DependentEdges(g), rank)
    ensures FlagsOnly(g, g2)
    ensures g2[r].dirty == dirty
    ensures !dirty ==> forall k :: k in g && k != r ==> g2[k] == g[k]
  {
    if dirty then Invalidate(g, r, rank) else g[r := g[r].(dirty := false)]
  }

  /** `Reset()`: `SetDirtyFlag(true)` on the node, then `Reset()` on each of
      its dependents in order. */
  function Reset(g: Arena, r: Ref, rank: map<Ref, nat>): (g2: Arena)
    requires r in g && Ranked(DependentEdges(g), rank)
    ensures FlagsOnly(g, g2)
    ensures g2[r].dirty
    decreases rank[r], 1
  {
    assert r in DependentEdges(g);
    var g1 := Invalidate(g, r, rank);
    FlagsOnlyKeepsEdges(g, g1);
    ResetAll(g1, g[r].dependents, rank, rank[r])
  }

  function ResetAll(g: Arena, ds: seq<Ref>, rank: map<Ref, nat>, bound: nat): (g2: Arena)
    requires Ranked(DependentEdges(g), rank)
    requires forall j :: 0 <= j < |ds| ==> ds[j] in g && ds[j] in rank && rank[ds[j]] < bound
    ensures FlagsOnly(g, g2)
    ensures forall k :: k in g && g[k].dirty ==> g2[k].dirty
    decreases bound, 0, |ds|
  {
    if ds == [] then g
    else
      var g1 := Reset(g, ds[0], rank);
      FlagsOnlyKeepsEdges(g, g1);
      ResetAll(g1, ds[1..], rank, bound)
  }

  // ---------------------------------------------------------------------------
  // Warm-up time
  // ---------------------------------------------------------------------------

  /** `WarmupTime()` as dispatched on the node's class: the class override
      when there is one, the base implementation otherwise. */
  function WarmupTime(g: Arena, r: Ref, rank: map<Ref, nat>): (t: nat)
    requires r in g && Ranked(InputEdges(g), rank)
    ensures g[r].cls.warmupOverride.Some? ==> t == g[r].cls.warmupOverride.value
    ensures g[r].cls.warmupOverride.None? && g[r].inputs == [] ==> t == 0
    ensures g[r].cls.warmupOverride.None? ==>
      forall j :: 0 <= j < |g[r].inputs| ==> WarmupTime(g, g[r].inputs[j], rank) <= t
    ensures g[r].cls.warmupOverride.None? && g[r].inputs != [] ==>
      exists j :: 0 <= j < |g[r].inputs| && t == WarmupTime(g, g[r].inputs[j], rank)
    decreases rank[r], 1
  {
    match g[r].cls.warmupOverride
    case Some(w) => w
    case None => BaseWarmupTime(g, r, rank)
  }

  /** The base `WarmupTime()`: 0 without inputs, otherwise the largest warm-up
      time among the inputs. */
  function BaseWarmupTime(g: Arena, r: Ref, rank: map<Ref, nat>): (w: nat)
    requires r in g && Ranked(InputEdges(g), rank)
    ensures g[r].inputs == [] ==> w == 0
    ensures forall j :: 0 <= j < |g[r].inputs| ==> WarmupTime(g, g[r].inputs[j], rank) <= w
    ensures g[r].inputs != [] ==> exists j :: 0 <= j < |g[r].inputs| && w == WarmupTime(g, g[r].inputs[j], rank)
    decreases rank[r], 0
  {
    assert r in InputEdges(g);
    MaxWarmup(g, g[r].inputs, rank, rank[r])
  }

  /** The running maximum of the loop over `xs`, accumulated left to right
      from 0. */
  function MaxWarmup(g: Arena, xs: seq<Ref>, rank: map<Ref, nat>, bound: nat): (m: nat)
    requires Ranked(InputEdges(g), rank)
    requires forall j :: 0 <= j < |xs| ==> xs[j] in g && xs[j] in rank && rank[xs[j]] < bound
    ensures forall j :: 0 <= j < |xs| ==> WarmupTime(g, xs[j], rank) <= m
    ensures xs == [] ==> m == 0
    ensures xs != [] ==> exists j :: 0 <= j < |xs| && m == WarmupTime(g, xs[j], rank)
    decreases bound, 0, |xs|
  {
    if xs == [] then 0
    else
      var before := MaxWarmup(g, xs[..|xs| - 1], rank, bound);
      var last := WarmupTime(g, xs[|xs| - 1], rank);
      if before < last then last else before
  }

  // ---------------------------------------------------------------------------
  // Search for the raw-input node
  // ---------------------------------------------------------------------------

  /** `FindInputFeature()`: look at the first input only; return it when it
      is an input sentinel, otherwise continue the search from it. */
  function FindInputFeature(g: Arena, r: Ref, rank: map<Ref, nat>): (f: Option<Ref>)
    requires r in g && FirstInputRanked(g, rank)
    ensures g[r].inputs == [] ==> f == None
    ensures f.Some? ==> f.value in g && g[f.value].cls.isInputFeature
    decreases rank[r]
  {
    if |g[r].inputs| == 0 then None
    else
      var first := g[r].inputs[0];
      if g[first].cls.isInputFeature then Some(first)
      else FindInputFeature(g, first, rank)
  }
}
