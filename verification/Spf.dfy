/**
 Shortest paths over the link state database (src/olsr_spf.c).

 Vertices are numbered; the edge tree of vertex v is the sequence g[v] in key order.  The candidate
 tree is an ideal ordered multimap: a set of vertices keyed by their live path cost, whose first
 element is any vertex of minimum key.
 */
module Spf {
  import opened Prelude

  type Node = nat
  type LinkId = nat

  const LINK_COST_BROKEN: nat := 0x40_0000
  const ROUTE_COST_BROKEN: nat := 0xffff_ffff
  const UINT32: nat := 0x1_0000_0000

  /** One tc_edge_entry: the vertex that owns the inverse edge, if there is one, and the cost. */
  datatype Edge = Edge(inverse: Option<Node>, cost: nat)

  type Graph = seq<seq<Edge>>

  ghost predicate WellFormed(g: Graph) {
    forall v, i :: 0 <= v < |g| && 0 <= i < |g[v]| ==>
      g[v][i].cost < UINT32 && (g[v][i].inverse.Some? ==> g[v][i].inverse.value < |g|)
  }

  /** The two tests of olsr_spf_relax: an inverse edge exists and the edge is not broken. */
  predicate Usable(e: Edge) {
    e.inverse.Some? && e.cost < LINK_COST_BROKEN
  }

  /** Every usable edge costs at most `b`. */
  ghost predicate EdgeBound(g: Graph, b: nat) {
    forall v, i :: 0 <= v < |g| && 0 <= i < |g[v]| && Usable(g[v][i]) ==> g[v][i].cost <= b
  }

  /** A bound under which no sum of olsr_spf_relax can reach ROUTE_COST_BROKEN. */
  ghost predicate NoWrap(g: Graph) {
    exists b: nat :: EdgeBound(g, b) && |g| * b < ROUTE_COST_BROKEN
  }

  lemma {:induction false} SmallNetworksDoNotWrap(g: Graph)
    requires |g| <= 1024
    ensures NoWrap(g)
  {
    assert EdgeBound(g, LINK_COST_BROKEN - 1);
    assert |g| * (LINK_COST_BROKEN - 1) <= 1024 * (LINK_COST_BROKEN - 1);
  }

  // ---- Walks: the reference notion of a path -----------------------------------------------

  /** A walk that starts at the root and grows at its far end. */
  datatype Walk = Start | Step(prefix: Walk, edge: Edge)

  ghost function End(root: Node, p: Walk): (v: Node) {
    match p
    case Start => root
    case Step(_, e) => if e.inverse.Some? then e.inverse.value else root
  }

  ghost predicate IsWalk(g: Graph, root: Node, p: Walk) {
    match p
    case Start => root < |g|
    case Step(q, e) => IsWalk(g, root, q) && Usable(e) && End(root, q) < |g| && e in g[End(root, q)]
  }

  ghost function Cost(p: Walk): nat {
    match p
    case Start => 0
    case Step(q, e) => Cost(q) + e.cost
  }

  ghost function Length(p: Walk): nat {
    match p
    case Start => 0
    case Step(q, _) => Length(q) + 1
  }

  /** The vertex one edge away from the root on a walk of at least one edge. */
  ghost function FirstHop(root: Node, p: Walk): Node
    requires p.Step?
  {
    if p.prefix.Start? then End(root, p) else FirstHop(root, p.prefix)
  }

  ghost predicate WalkTo(g: Graph, root: Node, v: Node, p: Walk) {
    IsWalk(g, root, p) && End(root, p) == v
  }

  ghost predicate Reachable(g: Graph, root: Node, v: Node) {
    exists p :: WalkTo(g, root, v, p)
  }

  /** `c` is the least total cost of a walk from the root to v. */
  ghost predicate IsDistance(g: Graph, root: Node, v: Node, c: nat) {
    && (exists p :: WalkTo(g, root, v, p) && Cost(p) == c)
    && (forall p :: WalkTo(g, root, v, p) ==> c <= Cost(p))
  }

  // ---- Next hops ---------------------------------------------------------------------------

  /** The link the preset loop leaves on vertex v: the last assignment wins. */
  function PresetOf(presets: seq<(Node, LinkId)>, v: Node): Option<LinkId> {
    if |presets| == 0 then None
    else
      var (w, link) := presets[|presets| - 1];
      if w == v then Some(link) else PresetOf(presets[..|presets| - 1], v)
  }

  /** The last assignment to a vertex counts. */
  lemma {:induction false} PresetMeans(presets: seq<(Node, LinkId)>, v: Node)
    ensures PresetOf(presets, v).None? <==> forall i :: 0 <= i < |presets| ==> presets[i].0 != v
    ensures forall i :: 0 <= i < |presets| && presets[i].0 == v && (forall j :: i < j < |presets| ==> presets[j].0 != v)
              ==> PresetOf(presets, v) == Some(presets[i].1)
  {
    if presets != [] {
      PresetMeans(presets[..|presets| - 1], v);
    }
  }

  /** Every usable edge out of the root leads to a vertex with a preset link, and the root has none. */
  ghost predicate NeighboursPreset(g: Graph, root: Node, presets: seq<(Node, LinkId)>)
    requires root < |g|
  {
    && PresetOf(presets, root).None?
    && forall i :: 0 <= i < |g[root]| && Usable(g[root][i]) ==> PresetOf(presets, g[root][i].inverse.value).Some?
  }

  // ---- The invariant of a run, over plain values ---------------------------------------------

  /** The fields of all tc_entry objects that SPF writes. */
  datatype Table = Table(cost: seq<nat>, nextHop: seq<Option<LinkId>>, hops: seq<nat>)

  ghost predicate Sized(g: Graph, t: Table) {
    |t.cost| == |g| && |t.nextHop| == |g| && |t.hops| == |g|
  }

  ghost predicate Finite(t: Table, v: Node) {
    v < |t.cost| && t.cost[v] < ROUTE_COST_BROKEN
  }

  /** Exactly the labelled vertices are candidates or done; done ones come first in cost order. */
  ghost predicate Ordered(g: Graph, t: Table, tree: set<Node>, done: seq<Node>)
    requires Sized(g, t)
  {
    && (forall v: Node :: v in tree ==> Finite(t, v) && v !in done)
    && (forall i :: 0 <= i < |done| ==> Finite(t, done[i]))
    && (forall v: Node :: Finite(t, v) ==> v in tree || v in done)
    && (forall v: Node :: v < |g| ==> t.cost[v] <= ROUTE_COST_BROKEN)
    && (forall i, j :: 0 <= i < j < |done| ==> done[i] != done[j] && t.cost[done[i]] <= t.cost[done[j]])
    && (forall i, v: Node :: 0 <= i < |done| && v in tree ==> t.cost[done[i]] <= t.cost[v])
  }

  /** Edge i of vertex u offers no improvement. */
  ghost predicate Relaxed(g: Graph, t: Table, u: Node, i: nat)
    requires Sized(g, t) && WellFormed(g) && u < |g| && i < |g[u]|
  {
    Usable(g[u][i]) ==>
      Finite(t, g[u][i].inverse.value) && t.cost[g[u][i].inverse.value] <= t.cost[u] + g[u][i].cost
  }

  ghost predicate AllRelaxed(g: Graph, t: Table, done: seq<Node>)
    requires Sized(g, t) && WellFormed(g)
  {
    forall k, i :: 0 <= k < |done| && done[k] < |g| && 0 <= i < |g[done[k]]| ==> Relaxed(g, t, done[k], i)
  }

  /** The position of v in the path list, or the length of the list. */
  ghost function Rank(done: seq<Node>, v: Node): (k: nat)
    ensures k <= |done| && (k < |done| <==> v in done)
  {
    if done == [] then 0 else if done[0] == v then 0 else 1 + Rank(done[1..], v)
  }

  lemma {:induction false} RankAppend(done: seq<Node>, u: Node, v: Node)
    ensures Rank(done + [u], v) == if v in done then Rank(done, v) else if v == u then |done| else |done| + 1
  {
    if done != [] {
      RankAppend(done[1..], u, v);
      assert (done + [u])[1..] == done[1..] + [u];
    }
  }

  /** A walk that explains the label of v and has no more edges than vertices were settled before v. */
  ghost predicate Explains(g: Graph, root: Node, presets: seq<(Node, LinkId)>, t: Table, done: seq<Node>, v: Node,
                           p: Walk)
    requires Sized(g, t) && v < |g| && root < |g|
  {
    && WalkTo(g, root, v, p)
    && Cost(p) == t.cost[v]
    && Length(p) <= Rank(done, v)
    && Length(p) % 256 == t.hops[v]
    && (NeighboursPreset(g, root, presets) ==>
          if p.Start? then v == root && t.nextHop[v].None?
          else v != root && t.nextHop[v].Some? && t.nextHop[v] == PresetOf(presets, FirstHop(root, p)))
  }

  ghost predicate Explained(g: Graph, root: Node, presets: seq<(Node, LinkId)>, t: Table, done: seq<Node>)
    requires Sized(g, t) && root < |g|
  {
    forall v: Node :: Finite(t, v) ==> exists p :: Explains(g, root, presets, t, done, v, p)
  }

  /** Settling a vertex gives every later one room for one more edge. */
  lemma {:induction false} ExplainedAppend(g: Graph, root: Node, presets: seq<(Node, LinkId)>, t: Table,
                                           done: seq<Node>, u: Node)
    requires Sized(g, t) && root < |g| && Explained(g, root, presets, t, done)
    ensures Explained(g, root, presets, t, done + [u])
  {
    forall v: Node | Finite(t, v) ensures exists p :: Explains(g, root, presets, t, done + [u], v, p) {
      var p :| Explains(g, root, presets, t, done, v, p);
      RankAppend(done, u, v);
      assert Explains(g, root, presets, t, done + [u], v, p);
    }
  }

  ghost predicate Bounded(t: Table, limit: nat) {
    forall v: Node :: Finite(t, v) ==> t.cost[v] <= limit
  }

  ghost predicate PresetsIntact(g: Graph, root: Node, presets: seq<(Node, LinkId)>, t: Table)
    requires Sized(g, t)
  {
    PresetOf(presets, root).None? ==> forall v: Node :: v < |g| ==> t.nextHop[v] == PresetOf(presets, v)
  }

  ghost predicate Inv(g: Graph, root: Node, presets: seq<(Node, LinkId)>, t: Table, tree: set<Node>, done: seq<Node>)
    requires WellFormed(g) && root < |g|
  {
    && Sized(g, t)
    && t.cost[root] == 0
    && Ordered(g, t, tree, done)
    && Explained(g, root, presets, t, done)
    && (if done == [] then tree == {root} && PresetsIntact(g, root, presets, t) else done[0] == root)
  }

  /** Inside olsr_spf_relax(u): u is a cheapest candidate; only a relaxation of the root sees presets. */
  ghost predicate Exploring(g: Graph, root: Node, presets: seq<(Node, LinkId)>, t: Table, tree: set<Node>,
                            done: seq<Node>, u: Node)
    requires WellFormed(g) && root < |g|
  {
    && Sized(g, t)
    && t.cost[root] == 0
    && Ordered(g, t, tree, done)
    && Explained(g, root, presets, t, done + [u])
    && u in tree
    && (forall v: Node :: v in tree ==> t.cost[u] <= t.cost[v])
    && (if done == [] then u == root && PresetsIntact(g, root, presets, t) else done[0] == root)
  }

  /** The assignments of olsr_spf_relax when the edge from u improves w. */
  function Relabel(t: Table, u: Node, w: Node, newCost: nat): (r: Table)
    requires u < |t.cost| && w < |t.cost| && |t.nextHop| == |t.cost| == |t.hops|
  {
    Table(t.cost[w := newCost],
          if t.nextHop[u].Some? then t.nextHop[w := t.nextHop[u]] else t.nextHop,
          t.hops[w := (t.hops[u] + 1) % 256])
  }

  /** A vertex whose cost an edge of u improves is neither done nor u itself. */
  lemma {:induction false} ImprovedVertexIsOpen(g: Graph, root: Node, presets: seq<(Node, LinkId)>, t: Table,
                                                tree: set<Node>, done: seq<Node>, u: Node, w: Node, c: nat)
    requires WellFormed(g) && root < |g| && Exploring(g, root, presets, t, tree, done, u)
    requires w < |g| && t.cost[u] + c < t.cost[w]
    ensures w !in done && w != u && w != root
    ensures w in tree <==> t.cost[w] < ROUTE_COST_BROKEN
  {
    if w in tree { assert Finite(t, w); }
    if t.cost[w] < ROUTE_COST_BROKEN { assert Finite(t, w); }
  }

  lemma {:induction false} RelabelIsOrdered(g: Graph, t: Table, tree: set<Node>, done: seq<Node>, u: Node, w: Node,
                                            c: nat)
    requires Sized(g, t) && Ordered(g, t, tree, done)
    requires u in tree && (forall v: Node :: v in tree ==> t.cost[u] <= t.cost[v])
    requires w < |g| && w !in done && t.cost[u] + c < ROUTE_COST_BROKEN
    ensures Ordered(g, Relabel(t, u, w, t.cost[u] + c), tree + {w}, done)
  {
    var r := Relabel(t, u, w, t.cost[u] + c);
    forall v: Node | Finite(r, v) ensures v in tree + {w} || v in done {
      if v != w { assert Finite(t, v); }
    }
    forall v: Node | v in tree + {w} ensures Finite(r, v) {
      if v != w { assert Finite(t, v); }
    }
    forall i | 0 <= i < |done| ensures Finite(r, done[i]) && done[i] != w {
      assert Finite(t, done[i]);
    }
  }

  lemma {:induction false} RelabelIsExplained(g: Graph, root: Node, presets: seq<(Node, LinkId)>, t: Table,
                                              tree: set<Node>, done: seq<Node>, u: Node, i: nat)
    requires WellFormed(g) && root < |g| && Exploring(g, root, presets, t, tree, done, u)
    requires u < |g| && i < |g[u]| && Usable(g[u][i])
    requires g[u][i].inverse.value !in {u, root} && g[u][i].inverse.value !in done
    ensures Explained(g, root, presets, Relabel(t, u, g[u][i].inverse.value, t.cost[u] + g[u][i].cost), done + [u])
  {
    hide Explains, Ordered, NeighboursPreset, PresetsIntact, Rank;
    var w := g[u][i].inverse.value;
    ExploredIsFinite(g, t, tree, done, u);
    var pu :| Explains(g, root, presets, t, done + [u], u, pu);
    if u == root {
      RootStillPreset(g, root, presets, t, tree, done, u);
    }
    StepExplains(g, root, presets, t, done, u, i, pu);
    OthersExplained(g, root, presets, t, Relabel(t, u, w, t.cost[u] + g[u][i].cost), done + [u], w);
  }

  lemma {:induction false} ExploredIsFinite(g: Graph, t: Table, tree: set<Node>, done: seq<Node>, u: Node)
    requires Sized(g, t) && Ordered(g, t, tree, done) && u in tree
    ensures Finite(t, u) && u !in done
  {
  }

  /** The walk of u and one edge more explain the new label of w. */
  lemma {:induction false} StepExplains(g: Graph, root: Node, presets: seq<(Node, LinkId)>, t: Table, done: seq<Node>,
                                        u: Node, i: nat, pu: Walk)
    requires WellFormed(g) && root < |g| && Sized(g, t)
    requires u < |g| && u !in done && i < |g[u]| && Usable(g[u][i]) && Explains(g, root, presets, t, done + [u], u, pu)
    requires g[u][i].inverse.value !in {u, root} && g[u][i].inverse.value !in done
    requires u == root ==> PresetsIntact(g, root, presets, t)
    ensures var w := g[u][i].inverse.value;
            Explains(g, root, presets, Relabel(t, u, w, t.cost[u] + g[u][i].cost), done + [u], w, Step(pu, g[u][i]))
  {
    hide Rank, PresetOf;
    var e, w := g[u][i], g[u][i].inverse.value;
    RankAppend(done, u, u);
    RankAppend(done, u, w);
    assert (Length(pu) + 1) % 256 == (Length(pu) % 256 + 1) % 256;
    assert WalkTo(g, root, w, Step(pu, e));
  }

  /** A label that did not change keeps its explanation. */
  lemma {:induction false} OthersExplained(g: Graph, root: Node, presets: seq<(Node, LinkId)>, t: Table, r: Table,
                                           all: seq<Node>, w: Node)
    requires Sized(g, t) && Sized(g, r) && root < |g| && Explained(g, root, presets, t, all)
    requires forall v: Node :: v < |g| && v != w ==>
               t.cost[v] == r.cost[v] && t.hops[v] == r.hops[v] && t.nextHop[v] == r.nextHop[v]
    requires Finite(r, w) ==> exists p :: Explains(g, root, presets, r, all, w, p)
    ensures Explained(g, root, presets, r, all)
  {
    forall v: Node | Finite(r, v) ensures exists p :: Explains(g, root, presets, r, all, v, p) {
      if v != w {
        assert Finite(t, v);
        var p :| Explains(g, root, presets, t, all, v, p);
        assert Explains(g, root, presets, r, all, v, p);
      }
    }
  }

  /** If the explored vertex is the root then nothing was done before it. */
  lemma {:induction false} RootStillPreset(g: Graph, root: Node, presets: seq<(Node, LinkId)>, t: Table,
                                           tree: set<Node>, done: seq<Node>, u: Node)
    requires WellFormed(g) && root < |g| && Exploring(g, root, presets, t, tree, done, u)
    requires u == root
    ensures done == [] && PresetsIntact(g, root, presets, t)
  {
    assert done != [] ==> root in done;
  }

  /** One improving edge keeps the exploring invariant. */
  lemma {:induction false} RelabelKeepsExploring(g: Graph, root: Node, presets: seq<(Node, LinkId)>, t: Table,
                                                 tree: set<Node>, done: seq<Node>, u: Node, i: nat)
    requires WellFormed(g) && root < |g| && Exploring(g, root, presets, t, tree, done, u)
    requires u < |g| && i < |g[u]| && Usable(g[u][i])
    requires t.cost[u] + g[u][i].cost < t.cost[g[u][i].inverse.value]
    ensures var w := g[u][i].inverse.value;
            Exploring(g, root, presets, Relabel(t, u, w, t.cost[u] + g[u][i].cost), tree + {w}, done, u)
  {
    hide Explained;
    var e := g[u][i];
    var w := e.inverse.value;
    ImprovedVertexIsOpen(g, root, presets, t, tree, done, u, w, e.cost);
    assert t.cost[w] <= ROUTE_COST_BROKEN;
    RelabelIsOrdered(g, t, tree, done, u, w, e.cost);
    RelabelIsExplained(g, root, presets, t, tree, done, u, i);
  }

  lemma {:induction false} RelabelKeepsRelaxed(g: Graph, t: Table, done: seq<Node>, u: Node, w: Node, c: nat)
    requires Sized(g, t) && WellFormed(g) && u < |g| && w < |g| && w !in done
    requires t.cost[u] + c < t.cost[w]
    requires AllRelaxed(g, t, done)
    ensures AllRelaxed(g, Relabel(t, u, w, t.cost[u] + c), done)
  {
    var r := Relabel(t, u, w, t.cost[u] + c);
    forall k, i | 0 <= k < |done| && done[k] < |g| && 0 <= i < |g[done[k]]|
      ensures Relaxed(g, r, done[k], i)
    {
      assert done[k] != w;
      assert Relaxed(g, t, done[k], i);
    }
  }

  /** The loop invariant of olsr_spf_run_full. */
  ghost predicate Settled(g: Graph, root: Node, presets: seq<(Node, LinkId)>, t: Table, tree: set<Node>,
                          done: seq<Node>, b: nat)
    requires WellFormed(g) && root < |g|
  {
    Inv(g, root, presets, t, tree, done) && AllRelaxed(g, t, done) && Bounded(t, |done| * b)
  }

  /** The loop invariant of olsr_spf_relax(u) after k edges. */
  ghost predicate Progress(g: Graph, root: Node, presets: seq<(Node, LinkId)>, t: Table, tree: set<Node>,
                           done: seq<Node>, u: Node, lim: nat, b: nat, k: nat)
    requires WellFormed(g) && root < |g|
  {
    && Exploring(g, root, presets, t, tree, done, u) && AllRelaxed(g, t, done)
    && u < |g| && k <= |g[u]|
    && (forall i :: 0 <= i < k ==> Relaxed(g, t, u, i))
    && t.cost[u] <= lim && lim + b < ROUTE_COST_BROKEN
    && Bounded(t, lim + b)
  }

  lemma {:induction false} StartExploring(g: Graph, root: Node, presets: seq<(Node, LinkId)>, t: Table, tree: set<Node>,
                       done: seq<Node>, u: Node, b: nat)
    requires WellFormed(g) && root < |g| && |g| * b < ROUTE_COST_BROKEN
    requires Settled(g, root, presets, t, tree, done, b)
    requires u in tree && forall v: Node :: v in tree ==> t.cost[u] <= t.cost[v]
    ensures u < |g| && Progress(g, root, presets, t, tree, done, u, |done| * b, b, 0)
    ensures |done| < |g|
  {
    hide Explained;
    assert Finite(t, u);
    OpenVertexBound(g, t, tree, done, u, b);
    ExplainedAppend(g, root, presets, t, done, u);
  }

  lemma {:induction false} ImprovementKeepsProgress(g: Graph, root: Node, presets: seq<(Node, LinkId)>, t: Table,
                                                    tree: set<Node>, done: seq<Node>, u: Node, lim: nat, b: nat,
                                                    k: nat)
    requires WellFormed(g) && root < |g| && EdgeBound(g, b)
    requires Progress(g, root, presets, t, tree, done, u, lim, b, k)
    requires k < |g[u]| && Usable(g[u][k])
    requires t.cost[u] + g[u][k].cost < t.cost[g[u][k].inverse.value]
    ensures var w := g[u][k].inverse.value;
            && (w in tree <==> t.cost[w] < ROUTE_COST_BROKEN)
            && Progress(g, root, presets, Relabel(t, u, w, t.cost[u] + g[u][k].cost), tree
                + {w}, done, u, lim, b, k + 1)
  {
    var w, c := g[u][k].inverse.value, t.cost[u] + g[u][k].cost;
    ExploringFacts(g, root, presets, t, tree, done, u, w);
    ImprovedVertexIsOpen(g, root, presets, t, tree, done, u, w, g[u][k].cost);
    RelabelKeepsExploring(g, root, presets, t, tree, done, u, k);
    RelabelKeepsRelations(g, t, done, u, lim, b, k);
    ProgressFrom(g, root, presets, Relabel(t, u, w, c), tree + {w}, done, u, lim, b, k + 1);
  }

  /** Progress from its parts. */
  lemma {:induction false} ProgressFrom(g: Graph, root: Node, presets: seq<(Node, LinkId)>, t: Table, tree: set<Node>,
                                        done: seq<Node>, u: Node, lim: nat, b: nat, k: nat)
    requires WellFormed(g) && root < |g| && Exploring(g, root, presets, t, tree, done, u)
    requires u < |g| && k <= |g[u]| && Sized(g, t) && lim + b < ROUTE_COST_BROKEN
    requires Kept(g, t, done, u, lim, b, k)
    ensures Progress(g, root, presets, t, tree, done, u, lim, b, k)
  {
    hide Exploring, AllRelaxed, Bounded, Relaxed;
  }

  /** The parts of progress that are about costs and edges alone. */
  ghost predicate Kept(g: Graph, t: Table, done: seq<Node>, u: Node, lim: nat, b: nat, k: nat)
    requires WellFormed(g) && Sized(g, t) && u < |g| && k <= |g[u]|
  {
    && AllRelaxed(g, t, done) && Bounded(t, lim + b) && t.cost[u] <= lim
    && forall i :: 0 <= i < k ==> Relaxed(g, t, u, i)
  }

  lemma {:induction false} RelabelKeepsRelations(g: Graph, t: Table, done: seq<Node>, u: Node, lim: nat, b: nat, k: nat)
    requires WellFormed(g) && Sized(g, t) && u < |g| && k < |g[u]| && Usable(g[u][k]) && EdgeBound(g, b)
    requires Kept(g, t, done, u, lim, b, k)
    requires var w := g[u][k].inverse.value;
             w !in done && w != u && t.cost[u] + g[u][k].cost < t.cost[w] <= ROUTE_COST_BROKEN
    ensures var r := Relabel(t, u, g[u][k].inverse.value, t.cost[u] + g[u][k].cost);
            Sized(g, r) && Kept(g, r, done, u, lim, b, k + 1)
  {
    var w, c := g[u][k].inverse.value, t.cost[u] + g[u][k].cost;
    assert g[u][k].cost <= b;
    RelabelKeepsRelaxed(g, t, done, u, w, g[u][k].cost);
    RelabelKeepsFirst(g, t, u, k);
    hide AllRelaxed, Bounded, Relaxed;
    RelabelKeepsBounded(t, u, w, c, lim + b);
    RelabelKeepsOwn(t, u, w, c);
  }

  lemma {:induction false} RelabelKeepsOwn(t: Table, u: Node, w: Node, c: nat)
    requires u < |t.cost| && w < |t.cost| && |t.nextHop| == |t.cost| == |t.hops| && u != w
    ensures Relabel(t, u, w, c).cost[u] == t.cost[u]
  {
  }

  lemma {:induction false} ExploringFacts(g: Graph, root: Node, presets: seq<(Node, LinkId)>, t: Table, tree: set<Node>,
                                          done: seq<Node>, u: Node, w: Node)
    requires WellFormed(g) && root < |g| && Exploring(g, root, presets, t, tree, done, u) && w < |g|
    ensures Sized(g, t) && t.cost[w] <= ROUTE_COST_BROKEN
  {
  }

  lemma {:induction false} RelabelKeepsBounded(t: Table, u: Node, w: Node, c: nat, limit: nat)
    requires u < |t.cost| && w < |t.cost| && |t.nextHop| == |t.cost| == |t.hops|
    requires Bounded(t, limit) && c <= limit
    ensures Bounded(Relabel(t, u, w, c), limit)
  {
    var r := Relabel(t, u, w, c);
    forall v: Node | Finite(r, v) ensures r.cost[v] <= limit {
      if v != w { assert Finite(t, v); }
    }
  }

  /** The edges of u up to the one that made the improvement offer no more. */
  lemma {:induction false} RelabelKeepsFirst(g: Graph, t: Table, u: Node, k: nat)
    requires Sized(g, t) && WellFormed(g) && u < |g| && k < |g[u]| && Usable(g[u][k])
    requires forall i :: 0 <= i < k ==> Relaxed(g, t, u, i)
    requires t.cost[u] + g[u][k].cost < t.cost[g[u][k].inverse.value] <= ROUTE_COST_BROKEN
    ensures var r := Relabel(t, u, g[u][k].inverse.value, t.cost[u] + g[u][k].cost);
            forall i :: 0 <= i < k + 1 ==> Relaxed(g, r, u, i)
  {
    var w := g[u][k].inverse.value;
    var r := Relabel(t, u, w, t.cost[u] + g[u][k].cost);
    forall i | 0 <= i < k + 1 ensures Relaxed(g, r, u, i) {
      if i < k { assert Relaxed(g, t, u, i); }
    }
  }

  /** What one pass of the edge loop may rely on: the sum is exact, and either outcome makes progress. */
  lemma {:induction false} EdgeCases(g: Graph, root: Node, presets: seq<(Node, LinkId)>, t: Table, tree: set<Node>,
                  done: seq<Node>, u: Node, lim: nat, b: nat, k: nat)
    requires WellFormed(g) && root < |g| && EdgeBound(g, b)
    requires Progress(g, root, presets, t, tree, done, u, lim, b, k)
    requires u < |g| && k < |g[u]|
    ensures Sized(g, t)
    ensures !Usable(g[u][k]) ==> Progress(g, root, presets, t, tree, done, u, lim, b, k + 1)
    ensures Usable(g[u][k]) ==>
              var w, c := g[u][k].inverse.value, t.cost[u] + g[u][k].cost;
              && c < UINT32
              && if c < t.cost[w] then
                   && (w in tree <==> t.cost[w] < ROUTE_COST_BROKEN)
                   && Progress(g, root, presets, Relabel(t, u, w, c), tree + {w}, done, u, lim, b, k + 1)
                 else Progress(g, root, presets, t, tree, done, u, lim, b, k + 1)
  {
    if Usable(g[u][k]) {
      assert g[u][k].cost <= b;
      if t.cost[u] + g[u][k].cost < t.cost[g[u][k].inverse.value] {
        ImprovementKeepsProgress(g, root, presets, t, tree, done, u, lim, b, k);
      } else {
        assert Relaxed(g, t, u, k);
      }
    } else {
      assert Relaxed(g, t, u, k);
    }
  }

  /** Moving the explored vertex from the tree to the path list restores the loop invariant. */
  lemma {:induction false} SettleKeepsInv(g: Graph, root: Node, presets: seq<(Node, LinkId)>, t: Table, tree: set<Node>,
                       done: seq<Node>, u: Node, b: nat)
    requires WellFormed(g) && root < |g| && u < |g|
    requires Progress(g, root, presets, t, tree, done, u, |done| * b, b, |g[u]|)
    ensures Settled(g, root, presets, t, tree - {u}, done + [u], b)
  {
    assert Finite(t, u);
    assert (|done| + 1) * b == |done| * b + b;
    SettledIsRelaxed(g, t, done, u);
    forall v: Node | Finite(t, v) ensures v in tree - {u} || v in done + [u] {
    }
  }

  lemma {:induction false} DistinctBelow(s: seq<Node>, n: nat)
    requires forall i :: 0 <= i < |s| ==> s[i] < n
    requires forall i, j :: 0 <= i < j < |s| ==> s[i] != s[j]
    ensures |s| <= n
  {
    var all := Below(n);
    RangeSize(n);
    var elems := Elements(s);
    DistinctSize(s);
    assert elems <= all;
    SubsetSize(elems, all);
  }

  ghost function Below(n: nat): (r: set<Node>)
    ensures forall x: Node :: x in r <==> x < n
  {
    if n == 0 then {} else Below(n - 1) + {n - 1}
  }

  lemma {:induction false} RangeSize(n: nat)
    ensures |Below(n)| == n
  {
    if n > 0 { RangeSize(n - 1); }
  }

  lemma {:induction false} DistinctSize(s: seq<Node>)
    requires forall i, j :: 0 <= i < j < |s| ==> s[i] != s[j]
    ensures |Elements(s)| == |s|
  {
    if s != [] {
      var r, x := s[..|s| - 1], s[|s| - 1];
      DistinctSize(r);
      assert Elements(s) == Elements(r) + {x};
    }
  }

  ghost function Elements(s: seq<Node>): set<Node> { set x | x in s }

  lemma {:induction false} CheapestExists(cost: seq<nat>, tree: set<Node>)
    requires tree != {} && forall v: Node :: v in tree ==> v < |cost|
    ensures exists v :: v in tree && forall w :: w in tree ==> cost[v] <= cost[w]
  {
    var x :| x in tree;
    if tree == {x} {
      assert forall w :: w in tree ==> cost[x] <= cost[w];
    } else {
      var rest := tree - {x};
      CheapestExists(cost, rest);
      var y :| y in rest && forall w :: w in rest ==> cost[y] <= cost[w];
      var m := if cost[x] <= cost[y] then x else y;
      assert m in tree && forall w :: w in tree ==> cost[m] <= cost[w];
    }
  }

  // ---- What a finished run promises ----------------------------------------------------------

  /** Every label is the distance from the root, or ROUTE_COST_BROKEN exactly when there is no walk. */
  ghost predicate CostsCorrect(g: Graph, root: Node, t: Table)
    requires Sized(g, t)
  {
    forall v: Node :: v < |g| ==>
      if Reachable(g, root, v) then IsDistance(g, root, v, t.cost[v]) && t.cost[v] < ROUTE_COST_BROKEN
      else t.cost[v] == ROUTE_COST_BROKEN
  }

  /** The path list holds each reachable vertex exactly once, nearest first. */
  ghost predicate PathListCorrect(g: Graph, root: Node, t: Table, paths: seq<Node>)
    requires Sized(g, t)
  {
    && (forall v: Node :: v < |g| ==> (v in paths <==> Reachable(g, root, v)))
    && (forall i :: 0 <= i < |paths| ==> paths[i] < |g|)
    && (forall i, j :: 0 <= i < j < |paths| ==> paths[i] != paths[j] && t.cost[paths[i]] <= t.cost[paths[j]])
  }

  /**
   A least-cost walk to v that leaves through the neighbour whose preset link is the next hop. It has fewer edges than
   there are vertices, and `hops` is their number exactly while that fits eight bits.
   */
  ghost predicate RoutedAlong(g: Graph, root: Node, presets: seq<(Node, LinkId)>, t: Table, v: Node, p: Walk)
    requires Sized(g, t) && v < |g|
  {
    && WalkTo(g, root, v, p) && IsDistance(g, root, v, Cost(p))
    && p.Step? && Length(p) < |g|
    && t.hops[v] == Length(p) % 256 && (t.hops[v] == Length(p) <==> Length(p) < 256)
    && t.nextHop[v].Some? && t.nextHop[v] == PresetOf(presets, FirstHop(root, p))
  }

  ghost predicate NextHopsCorrect(g: Graph, root: Node, presets: seq<(Node, LinkId)>, t: Table)
    requires Sized(g, t)
  {
    forall v: Node :: v < |g| && v != root && Reachable(g, root, v) ==>
      exists p :: RoutedAlong(g, root, presets, t, v, p)
  }

  /** With at most 256 vertices `hops` is the number of edges of such a walk. */
  ghost predicate HopsExact(g: Graph, root: Node, presets: seq<(Node, LinkId)>, t: Table)
    requires Sized(g, t)
  {
    forall v: Node :: v < |g| && v != root && Reachable(g, root, v) ==>
      exists p :: RoutedAlong(g, root, presets, t, v, p) && Length(p) == t.hops[v]
  }

  lemma {:induction false} SmallNetworksCountHops(g: Graph, root: Node, presets: seq<(Node, LinkId)>, t: Table)
    requires Sized(g, t) && NextHopsCorrect(g, root, presets, t) && |g| <= 256
    ensures HopsExact(g, root, presets, t)
  {
    forall v: Node | v < |g| && v != root && Reachable(g, root, v)
      ensures exists p :: RoutedAlong(g, root, presets, t, v, p) && Length(p) == t.hops[v]
    {
      var p :| RoutedAlong(g, root, presets, t, v, p);
      assert Length(p) == t.hops[v];
    }
  }

  /** A line of n vertices; every edge has its inverse. */
  function Line(n: nat): (g: Graph)
    ensures |g| == n && forall v :: 0 <= v < n ==> g[v] == LineEdges(n, v)
  {
    seq(n, v requires 0 <= v < n => LineEdges(n, v))
  }

  function LineEdges(n: nat, v: Node): seq<Edge> {
    (if v > 0 then [Edge(Some(v - 1), 1)] else []) + (if v + 1 < n then [Edge(Some(v + 1), 1)] else [])
  }

  /** No walk gets further than its length, which is its cost. */
  lemma {:induction false} LineWalks(n: nat, p: Walk)
    requires IsWalk(Line(n), 0, p)
    ensures End(0, p) <= Length(p) == Cost(p)
  {
    if p.Step? {
      LineWalks(n, p.prefix);
      var u := End(0, p.prefix);
      assert p.edge in LineEdges(n, u);
    }
  }

  lemma {:induction false} LineReaches(n: nat, v: Node) returns (p: Walk)
    requires v < n
    ensures WalkTo(Line(n), 0, v, p) && Cost(p) == v
  {
    if v == 0 {
      p := Start;
    } else {
      p := LineReaches(n, v - 1);
      var e := Edge(Some(v), 1);
      assert e == LineEdges(n, v - 1)[|LineEdges(n, v - 1)| - 1];
      p := Step(p, e);
    }
  }

  /** On a line the hop count is right exactly for the first 256 vertices. */
  lemma {:induction false} LineHops(n: nat, presets: seq<(Node, LinkId)>, t: Table, v: Node)
    requires 0 < v < n && Sized(Line(n), t) && NextHopsCorrect(Line(n), 0, presets, t)
    ensures t.hops[v] == v <==> v < 256
  {
    var q := LineReaches(n, v);
    assert Reachable(Line(n), 0, v);
    var p :| RoutedAlong(Line(n), 0, presets, t, v, p);
    LineWalks(n, p);
    assert Cost(p) <= Cost(q);
  }

  // ---- What the final table means --------------------------------------------------------------

  /** Labels are a potential: no walk ends cheaper than the label of its end. */
  lemma {:induction false} WalksAreNoCheaper(g: Graph, root: Node, t: Table, done: seq<Node>, p: Walk)
    requires WellFormed(g) && root < |g| && Sized(g, t) && Ordered(g, t, {}, done)
    requires t.cost[root] == 0 && AllRelaxed(g, t, done)
    requires IsWalk(g, root, p)
    ensures End(root, p) < |g| && Finite(t, End(root, p)) && t.cost[End(root, p)] <= Cost(p)
  {
    match p
    case Start =>
    case Step(q, e) =>
      WalksAreNoCheaper(g, root, t, done, q);
      var u := End(root, q);
      var i :| 0 <= i < |g[u]| && g[u][i] == e;
      var k :| 0 <= k < |done| && done[k] == u;
      assert Relaxed(g, t, done[k], i);
  }

  lemma {:induction false} FinalLabel(g: Graph, root: Node, presets: seq<(Node, LinkId)>, t: Table, done: seq<Node>,
                                      v: Node)
    requires WellFormed(g) && root < |g| && Inv(g, root, presets, t, {}, done)
    requires AllRelaxed(g, t, done)
    requires v < |g|
    ensures v in done <==> Reachable(g, root, v)
    ensures if Reachable(g, root, v) then IsDistance(g, root, v, t.cost[v]) && Finite(t, v)
            else t.cost[v] == ROUTE_COST_BROKEN
  {
    forall p | WalkTo(g, root, v, p) ensures Finite(t, v) && t.cost[v] <= Cost(p) {
      WalksAreNoCheaper(g, root, t, done, p);
    }
    if Finite(t, v) {
      var p :| Explains(g, root, presets, t, done, v, p);
      assert WalkTo(g, root, v, p);
    }
  }

  lemma {:induction false} FinalTable(g: Graph, root: Node, presets: seq<(Node, LinkId)>, t: Table, done: seq<Node>)
    requires WellFormed(g) && root < |g| && Inv(g, root, presets, t, {}, done)
    requires AllRelaxed(g, t, done)
    ensures CostsCorrect(g, root, t)
    ensures PathListCorrect(g, root, t, done)
    ensures NeighboursPreset(g, root, presets) ==> NextHopsCorrect(g, root, presets, t)
  {
    forall v: Node | v < |g|
      ensures v in done <==> Reachable(g, root, v)
      ensures if Reachable(g, root, v) then IsDistance(g, root, v, t.cost[v]) && Finite(t, v)
              else t.cost[v] == ROUTE_COST_BROKEN
    {
      FinalLabel(g, root, presets, t, done, v);
    }
    if NeighboursPreset(g, root, presets) {
      forall v: Node | v < |g| && v != root && Reachable(g, root, v)
        ensures exists p :: RoutedAlong(g, root, presets, t, v, p)
      {
        assert Finite(t, v);
        var p :| Explains(g, root, presets, t, done, v, p);
        DistinctBelow(done, |g|);
        assert RoutedAlong(g, root, presets, t, v, p);
      }
    }
  }

  /** A candidate is one more vertex than the settled ones, so sums through it stay below the limit. */
  lemma {:induction false} OpenVertexBound(g: Graph, t: Table, tree: set<Node>, done: seq<Node>, u: Node, b: nat)
    requires Sized(g, t) && Ordered(g, t, tree, done) && u in tree
    requires |g| * b < ROUTE_COST_BROKEN
    ensures |done| < |g| && |done| * b + b <= |g| * b
  {
    assert Finite(t, u);
    var all := done + [u];
    forall i | 0 <= i < |all| ensures all[i] < |g| {
      if i < |done| { assert Finite(t, done[i]); }
    }
    DistinctBelow(all, |g|);
    assert (|done| + 1) * b <= |g| * b;
  }

  lemma {:induction false} SettledIsRelaxed(g: Graph, t: Table, done: seq<Node>, u: Node)
    requires Sized(g, t) && WellFormed(g) && u < |g|
    requires AllRelaxed(g, t, done) && forall i :: 0 <= i < |g[u]| ==> Relaxed(g, t, u, i)
    ensures AllRelaxed(g, t, done + [u])
  {
    var all := done + [u];
    forall k, i | 0 <= k < |all| && all[k] < |g| && 0 <= i < |g[all[k]]| ensures Relaxed(g, t, all[k], i) {
      if k < |done| { assert Relaxed(g, t, done[k], i); }
    }
  }
}

module SpfRunner {
  import opened Prelude
  import opened Spf

  // ---- The imperative run ------------------------------------------------------------------------

  class SpfRun {
    const g: Graph
    const root: Node
    ghost const presets: seq<(Node, LinkId)>
    var table: Table
    var tree: set<Node>
    var pathList: seq<Node>

    ghost predicate Valid()
      reads this
    {
      WellFormed(g) && root < |g| && Inv(g, root, presets, table, tree, pathList)
    }

    /** Initialise all vertices, zero ourselves, queue ourselves and preset the neighbours' links. */
    constructor (g: Graph, root: Node, presets: seq<(Node, LinkId)>)
      requires WellFormed(g) && root < |g|
      requires forall k :: 0 <= k < |presets| ==> presets[k].0 < |g|
      ensures Valid() && this.g == g && this.root == root && this.presets == presets
      ensures pathList == [] && Bounded(table, 0)
    {
      this.g := g;
      this.root := root;
      this.presets := presets;
      table := Table(seq(|g|, _ => ROUTE_COST_BROKEN)[root := 0], seq(|g|, _ => None), seq(|g|, _ => 0));
      tree := {root};
      pathList := [];
      new;
      for k := 0 to |presets|
        invariant Sized(g, table)
        invariant table.cost == seq(|g|, _ => ROUTE_COST_BROKEN)[root := 0]
        invariant table.hops == seq(|g|, _ => 0)
        invariant tree == {root} && pathList == []
        invariant forall v: Node :: v < |g| ==> table.nextHop[v] == PresetOf(presets[..k], v)
      {
        assert presets[..k + 1][..k] == presets[..k];
        table := table.(nextHop := table.nextHop[presets[k].0 := Some(presets[k].1)]);
      }
      assert presets[..|presets|] == presets;
      assert forall v: Node :: Finite(table, v) ==> v == root;
      assert Explains(g, root, presets, table, [], root, Start);
    }

    /** avl_delete: only a vertex that is on the tree can be taken off it. */
    method DeleteCandidate(v: Node)
      requires v in tree
      modifies this`tree
      ensures tree == old(tree) - {v}
    {
      tree := tree - {v};
    }

    /** avl_insert keys the vertex by its live cost field. */
    method AddCandidate(v: Node)
      requires v !in tree
      modifies this`tree
      ensures tree == old(tree) + {v}
    {
      tree := tree + {v};
    }

    /** Writing a label is only allowed while the vertex is off the tree: keys never move. */
    method SetLabel(u: Node, w: Node, newCost: nat)
      requires w !in tree
      requires Sized(g, table) && u < |g| && w < |g|
      modifies this`table
      ensures table == Relabel(old(table), u, w, newCost)
    {
      table := Relabel(table, u, w, newCost);
    }

    method ExtractBest() returns (best: Option<Node>)
      requires forall v: Node :: v in tree ==> v < |table.cost|
      ensures best.None? <==> tree == {}
      ensures best.Some? ==> best.value in tree && forall w :: w in tree ==> table.cost[best.value] <= table.cost[w]
    {
      if tree == {} {
        return None;
      }
      CheapestExists(table.cost, tree);
      var v :| v in tree && forall w :: w in tree ==> table.cost[v] <= table.cost[w];
      return Some(v);
    }

    /** The body of the edge loop: re-key w if the edge improves it. */
    method RelaxEdge(u: Node, w: Node, cost: nat)
      requires Sized(g, table) && u < |g| && w < |g|
      requires table.cost[u] + cost < table.cost[w] ==> (w in tree <==> table.cost[w] < ROUTE_COST_BROKEN)
      requires table.cost[u] + cost < UINT32
      modifies this`table, this`tree
      ensures if old(table.cost[u]) + cost < old(table.cost[w])
              then table == Relabel(old(table), u, w, old(table.cost[u]) + cost) && tree == old(tree) + {w}
              else table == old(table) && tree == old(tree)
    {
      var newCost := (table.cost[u] + cost) % UINT32;
      if newCost < table.cost[w] {
        if table.cost[w] < ROUTE_COST_BROKEN {
          DeleteCandidate(w);
        }
        SetLabel(u, w, newCost);
        AddCandidate(w);
      }
    }

    /** olsr_spf_relax */
    method Relax(u: Node, ghost lim: nat, ghost b: nat)
      requires WellFormed(g) && root < |g| && EdgeBound(g, b) && u < |g|
      requires Progress(g, root, presets, table, tree, pathList, u, lim, b, 0)
      modifies this`table, this`tree
      ensures Progress(g, root, presets, table, tree, pathList, u, lim, b, |g[u]|)
    {
      hide Progress;
      ghost var t, tr := table, tree;
      for k := 0 to |g[u]|
        invariant t == table && tr == tree
        invariant Progress(g, root, presets, t, tr, pathList, u, lim, b, k)
      {
        var e := g[u][k];
        EdgeCases(g, root, presets, t, tr, pathList, u, lim, b, k);
        if e.inverse.None? || e.cost >= LINK_COST_BROKEN {
          continue;
        }
        var w := e.inverse.value;
        RelaxEdge(u, w, e.cost);
        if t.cost[u] + e.cost < t.cost[w] {
          t, tr := Relabel(t, u, w, t.cost[u] + e.cost), tr + {w};
        }
      }
    }

    /** olsr_spf_run_full */
    method RunFull()
      requires Valid() && pathList == [] && Bounded(table, 0) && NoWrap(g)
      modifies this`table, this`tree, this`pathList
      ensures Valid() && tree == {}
      ensures AllRelaxed(g, table, pathList)
    {
      ghost var b: nat :| EdgeBound(g, b) && |g| * b < ROUTE_COST_BROKEN;
      assert Settled(g, root, presets, table, tree, pathList, b);
      while true
        invariant Settled(g, root, presets, table, tree, pathList, b)
        decreases |g| - |pathList|
      {
        assert forall v: Node :: v in tree ==> Finite(table, v);
        var best := ExtractBest();
        if best.None? {
          break;
        }
        var u := best.value;
        StartExploring(g, root, presets, table, tree, pathList, u, b);
        Relax(u, |pathList| * b, b);
        SettleKeepsInv(g, root, presets, table, tree, pathList, u, b);
        DeleteCandidate(u);
        pathList := pathList + [u];
      }
    }
  }

  /**
   olsr_calculate_routing_table up to the path list.  `myself` is tc_myself after olsr_change_myself_tc;
   `presets` are the (vertex, link) pairs of the neighbour loop in table order.
   */
  method CalculateRoutes(g: Graph, myself: Option<Node>, presets: seq<(Node, LinkId)>)
    returns (table: Table, paths: seq<Node>)
    requires WellFormed(g) && NoWrap(g)
    requires myself.Some? ==> myself.value < |g|
    requires forall k :: 0 <= k < |presets| ==> presets[k].0 < |g|
    ensures Sized(g, table)
    ensures myself.None? ==> paths == [] && forall v: Node :: v < |g| ==> table.cost[v] == ROUTE_COST_BROKEN
    ensures myself.Some? ==> CostsCorrect(g, myself.value, table)
    ensures myself.Some? ==> PathListCorrect(g, myself.value, table, paths)
    ensures myself.Some? && NeighboursPreset(g, myself.value, presets) ==>
              && NextHopsCorrect(g, myself.value, presets, table)
              && (|g| <= 256 ==> HopsExact(g, myself.value, presets, table))
  {
    if myself.None? {
      table := Table(seq(|g|, _ => ROUTE_COST_BROKEN), seq(|g|, _ => None), seq(|g|, _ => 0));
      paths := [];
      return;
    }
    var run := new SpfRun(g, myself.value, presets);
    run.RunFull();
    FinalTable(g, myself.value, presets, run.table, run.pathList);
    if NeighboursPreset(g, myself.value, presets) && |g| <= 256 {
      SmallNetworksCountHops(g, myself.value, presets, run.table);
    }
    table, paths := run.table, run.pathList;
  }
}
