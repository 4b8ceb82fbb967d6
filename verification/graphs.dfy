/** The shader graph (src/implementation/graph.cpp): a registry of node
    prototypes, the list of node instances, and the index from instance names
    to positions in that list. `AddNode` instantiates a registered prototype
    under a fresh name; `GenerateGLSL` orders the instances producers-first,
    numbers them in that order and concatenates the code each emits. */
module Graphs {
  import opened Results
  import opened Text
  import opened Nodes
  import opened Registry
  import opened GraphNodes
  import opened Scheduler

  datatype Graph = Graph(registry: NodeRegistry, nodes: Arena, nameToIndex: map<string, nat>)

  /** The name index is a bijection between the names in use and the
      positions of the node list. */
  ghost predicate NamesIndexed(g: Graph) {
    && (forall name :: name in g.nameToIndex ==>
          g.nameToIndex[name] < |g.nodes| && g.nodes[g.nameToIndex[name]].name == name)
    && (forall k :: 0 <= k < |g.nodes| ==>
          g.nodes[k].name in g.nameToIndex && g.nameToIndex[g.nodes[k].name] == k)
  }

  /** Links point at existing sockets and names index positions. Every graph
      the operations build keeps this, whatever its links look like. */
  ghost predicate GraphShaped(g: Graph) {
    Wf(g.nodes) && NamesIndexed(g)
  }

  /** A shaped graph whose links also agree in both directions. `Link` as
      written can leave this (see `StaleLinks` below); the other operations
      keep it. */
  ghost predicate GraphWf(g: Graph) {
    GraphShaped(g) && Symmetric(g.nodes)
  }

  /** `Graph(nodeReg)`: no instances yet. */
  function NewGraph(reg: NodeRegistry): (g: Graph)
    ensures GraphWf(g) && g.registry == reg && |g.nodes| == 0
  {
    Graph(reg, [], map[])
  }

  // ---------------------------------------------------------------------
  // AddNode

  /** The `i`-th candidate name for an instance of `typeName`. */
  function CandidateName(typeName: string, i: nat): string {
    typeName + NatToString(i)
  }

  /** Different suffixes give different candidate names. */
  lemma CandidateNamesDistinct(typeName: string)
    ensures forall i: nat, j: nat :: i != j ==> CandidateName(typeName, i) != CandidateName(typeName, j)
  {
    forall i: nat, j: nat | i != j
      ensures CandidateName(typeName, i) != CandidateName(typeName, j)
    {
      NatToStringInjective(i, j);
      assert CandidateName(typeName, i)[|typeName|..] == NatToString(i);
      assert CandidateName(typeName, j)[|typeName|..] == NatToString(j);
    }
  }

  /** The candidates with suffixes 1 .. i-1. */
  ghost function NamesBelow(typeName: string, i: nat): (r: set<string>)
    requires i >= 1
    ensures |r| == i - 1
    ensures forall j: nat :: 1 <= j < i ==> CandidateName(typeName, j) in r
    ensures forall k: nat :: k >= i ==> CandidateName(typeName, k) !in r
    decreases i
  {
    if i == 1 then {}
    else
      CandidateNamesDistinct(typeName);
      NamesBelow(typeName, i - 1) + {CandidateName(typeName, i - 1)}
  }

  /** `name` is the candidate with the smallest suffix not in `taken`. */
  ghost predicate FirstFreeName(typeName: string, taken: set<string>, name: string) {
    exists k: nat ::
      && k >= 1 && name == CandidateName(typeName, k) && name !in taken
      && forall j: nat :: 1 <= j < k ==> CandidateName(typeName, j) in taken
  }

  /** Every link of `x` is absent. */
  predicate Unlinked(x: NodeInstance) {
    && (forall i :: 0 <= i < |x.inputs| ==> x.inputs[i].link.None?)
    && (forall o :: 0 <= o < |x.outputs| ==> x.outputs[o].links == [])
  }

  /** Appending an unlinked instance keeps every link of the others and the
      link invariants, symmetry included when the links had it. */
  lemma AppendUnlinked(nodes: Arena, x: NodeInstance)
    requires Wf(nodes) && InstanceWf(x) && Unlinked(x)
    ensures Wf(nodes + [x])
    ensures Symmetric(nodes) ==> Symmetric(nodes + [x])
  {
    var res := nodes + [x];
    forall n | 0 <= n < |res|
      ensures InstanceWf(res[n])
    {
      if n < |nodes| {
        assert res[n] == nodes[n];
      }
    }
    forall r: InRef | ValidIn(res, r) && r.node < |nodes|
      ensures ValidIn(nodes, r) && InLinkOf(res, r) == InLinkOf(nodes, r)
    {
      assert res[r.node] == nodes[r.node];
    }
    forall o: OutRef | ValidOut(res, o) && o.node < |nodes|
      ensures ValidOut(nodes, o) && OutLinksOf(res, o) == OutLinksOf(nodes, o)
    {
      assert res[o.node] == nodes[o.node];
    }
    forall r: InRef | ValidIn(nodes, r)
      ensures ValidIn(res, r) && InLinkOf(res, r) == InLinkOf(nodes, r)
    {
      assert res[r.node] == nodes[r.node];
    }
    forall o: OutRef | ValidOut(nodes, o)
      ensures ValidOut(res, o) && OutLinksOf(res, o) == OutLinksOf(nodes, o)
    {
      assert res[o.node] == nodes[o.node];
    }
    forall r: InRef | ValidIn(res, r) && r.node == |nodes|
      ensures InLinkOf(res, r).None?
    {
    }
    forall o: OutRef | ValidOut(res, o) && o.node == |nodes|
      ensures OutLinksOf(res, o) == []
    {
    }
  }

  /** The naming loop of `AddNode`: try suffixes 1, 2, ... until the
      candidate is not taken. It stops because distinct suffixes give
      distinct names and only finitely many are taken. */
  method FreshName(typeName: string, taken: set<string>) returns (name: string)
    ensures FirstFreeName(typeName, taken, name)
  {
    var i: nat := 1;
    ghost var seen: set<string> := {};
    while CandidateName(typeName, i) in taken
      invariant i >= 1 && seen == NamesBelow(typeName, i) && seen <= taken
      decreases |taken| - |seen|
    {
      var c := CandidateName(typeName, i);
      SubsetSize(seen + {c}, taken);
      seen := seen + {c};
      i := i + 1;
    }
    name := CandidateName(typeName, i);
  }

  /** Appending an unlinked instance under an unused name keeps the graph
      shaped, and well formed if it was. */
  lemma AppendKeepsGraphWf(g: Graph, x: NodeInstance)
    requires GraphShaped(g) && InstanceWf(x) && Unlinked(x) && x.name !in g.nameToIndex
    ensures GraphShaped(Graph(g.registry, g.nodes + [x], g.nameToIndex[x.name := |g.nodes|]))
    ensures GraphWf(g) ==> GraphWf(Graph(g.registry, g.nodes + [x], g.nameToIndex[x.name := |g.nodes|]))
  {
    AppendUnlinked(g.nodes, x);
    var g' := Graph(g.registry, g.nodes + [x], g.nameToIndex[x.name := |g.nodes|]);
    forall k | 0 <= k < |g.nodes|
      ensures g'.nodes[k].name in g'.nameToIndex && g'.nameToIndex[g'.nodes[k].name] == k
    {
      assert g'.nodes[k] == g.nodes[k];
    }
    forall name | name in g'.nameToIndex
      ensures g'.nameToIndex[name] < |g'.nodes| && g'.nodes[g'.nameToIndex[name]].name == name
    {
      if name != x.name {
        assert g'.nodes[g.nameToIndex[name]] == g.nodes[g.nameToIndex[name]];
      }
    }
  }

  /** `AddNode(type)`: nothing happens and nothing is returned for a type the
      registry does not know. Otherwise a new instance of the registered
      prototype is appended under the name `type` followed by the smallest
      suffix 1, 2, ... not yet in use, the name is indexed to its position,
      and the instance is returned. */
  method AddNode(g: Graph, typeName: string) returns (g': Graph, inst: Option<NodeInstance>)
    requires GraphShaped(g)
    ensures GraphShaped(g')
    ensures GraphWf(g) ==> GraphWf(g')
    ensures typeName !in g.registry ==> g' == g && inst.None?
    ensures typeName in g.registry ==>
      && inst.Some?
      && FirstFreeName(typeName, g.nameToIndex.Keys, inst.value.name)
      && inst.value == NewInstance(g.registry[typeName], inst.value.name)
      && g'.registry == g.registry
      && g'.nodes == g.nodes + [inst.value]
      && g'.nameToIndex == g.nameToIndex[inst.value.name := |g.nodes|]
  {
    match GetNode(g.registry, typeName)
    case None =>
      g', inst := g, None;
    case Some(node) =>
      var name := FreshName(typeName, g.nameToIndex.Keys);
      var x := NewInstance(node, name);
      AppendKeepsGraphWf(g, x);
      g' := Graph(g.registry, g.nodes + [x], g.nameToIndex[name := |g.nodes|]);
      inst := Some(x);
  }

  /** Adding two instances of the same type gives them different names. */
  method AddTwiceDistinctNames(g: Graph, typeName: string) returns (g': Graph, a: Option<NodeInstance>, b: Option<NodeInstance>)
    requires GraphShaped(g) && typeName in g.registry
    ensures GraphShaped(g') && a.Some? && b.Some? && a.value.name != b.value.name
    ensures GraphWf(g) ==> GraphWf(g')
    ensures |g'.nodes| == |g.nodes| + 2
  {
    var g1;
    g1, a := AddNode(g, typeName);
    g', b := AddNode(g1, typeName);
  }

  // ---------------------------------------------------------------------
  // The dependency graph

  /** The consuming node of each link, one per link. */
  function LinkTargets(links: seq<InRef>): (r: seq<nat>)
    ensures |r| == |links|
    ensures forall k :: 0 <= k < |links| ==> r[k] == links[k].node
  {
    seq(|links|, k requires 0 <= k < |links| => links[k].node)
  }

  /** The consumers of all outputs of a node, output by output. */
  function OutputConsumers(outs: seq<OutputSlot>): seq<nat> {
    if |outs| == 0 then []
    else OutputConsumers(outs[..|outs| - 1]) + LinkTargets(outs[|outs| - 1].links)
  }

  /** Step 1 of `topologicalSort`: `adj[u]` gets one entry per link leaving
      any output of node `u`, naming the node of the linked input. */
  function AdjacencyOf(nodes: Arena): (adj: Adjacency)
    ensures |adj| == |nodes|
    ensures forall u, v :: 0 <= u < |nodes| ==>
              (v in adj[u] <==> exists o, i: nat :: 0 <= o < |nodes[u].outputs| && InRef(v, i) in nodes[u].outputs[o].links)
  {
    forall u, v | 0 <= u < |nodes|
      ensures v in OutputConsumers(nodes[u].outputs) <==>
              exists o, i: nat :: 0 <= o < |nodes[u].outputs| && InRef(v, i) in nodes[u].outputs[o].links
    {
      OutputConsumersMember(nodes[u].outputs, v);
    }
    seq(|nodes|, u requires 0 <= u < |nodes| => OutputConsumers(nodes[u].outputs))
  }

  /** Some output of `u` lists an input of `v`. */
  ghost predicate Feeds(nodes: Arena, u: nat, v: nat) {
    exists o: nat, i: nat :: ValidOut(nodes, OutRef(u, o)) && InRef(v, i) in OutLinksOf(nodes, OutRef(u, o))
  }

  lemma {:induction false} OutputConsumersMember(outs: seq<OutputSlot>, v: nat)
    ensures v in OutputConsumers(outs) <==>
            exists o, i: nat :: 0 <= o < |outs| && InRef(v, i) in outs[o].links
  {
    if |outs| > 0 {
      var init := outs[..|outs| - 1];
      var last := outs[|outs| - 1];
      OutputConsumersMember(init, v);
      if v in LinkTargets(last.links) {
        var k :| 0 <= k < |last.links| && LinkTargets(last.links)[k] == v;
        assert InRef(v, last.links[k].input) in outs[|outs| - 1].links;
      }
      if exists o, i: nat :: 0 <= o < |outs| && InRef(v, i) in outs[o].links {
        var o, i: nat :| 0 <= o < |outs| && InRef(v, i) in outs[o].links;
        if o < |outs| - 1 {
          assert outs[o] == init[o];
        } else {
          var k :| 0 <= k < |last.links| && last.links[k] == InRef(v, i);
          assert LinkTargets(last.links)[k] == v;
        }
      }
    }
  }

  /** The adjacency lists hold exactly the producer-to-consumer pairs of the
      links. */
  lemma AdjacencyMeansFeeds(nodes: Arena, u: nat, v: nat)
    requires u < |nodes|
    ensures v in AdjacencyOf(nodes)[u] <==> Feeds(nodes, u, v)
  {
    OutputConsumersMember(nodes[u].outputs, v);
    if v in AdjacencyOf(nodes)[u] {
      var o, i: nat :| 0 <= o < |nodes[u].outputs| && InRef(v, i) in nodes[u].outputs[o].links;
      assert ValidOut(nodes, OutRef(u, o)) && InRef(v, i) in OutLinksOf(nodes, OutRef(u, o));
    }
    if Feeds(nodes, u, v) {
      var o: nat, i: nat :| ValidOut(nodes, OutRef(u, o)) && InRef(v, i) in OutLinksOf(nodes, OutRef(u, o));
    }
  }

  /** A linked input makes its node a consumer of the producing node. */
  lemma LinkIsEdge(nodes: Arena, r: InRef)
    requires Wf(nodes) && Symmetric(nodes)
    requires ValidIn(nodes, r) && InLinkOf(nodes, r).Some?
    ensures InLinkOf(nodes, r).value.node < |nodes|
    ensures r.node in AdjacencyOf(nodes)[InLinkOf(nodes, r).value.node]
  {
    var o := InLinkOf(nodes, r).value;
    assert r in OutLinksOf(nodes, o);
    assert Feeds(nodes, o.node, r.node);
    AdjacencyMeansFeeds(nodes, o.node, r.node);
  }

  /** Every consumer is a node of the graph. */
  lemma AdjacencyClosed(nodes: Arena)
    requires Wf(nodes)
    ensures Closed(AdjacencyOf(nodes))
  {
    var adj := AdjacencyOf(nodes);
    forall u, k | 0 <= u < |adj| && 0 <= k < |adj[u]|
      ensures adj[u][k] < |adj|
    {
      var v := adj[u][k];
      AdjacencyMeansFeeds(nodes, u, v);
      var o: nat, i: nat :| ValidOut(nodes, OutRef(u, o)) && InRef(v, i) in OutLinksOf(nodes, OutRef(u, o));
      assert ValidIn(nodes, InRef(v, i));
    }
  }

  // ---------------------------------------------------------------------
  // GenerateGLSL

  /** The code of the nodes at `order`, in that order: each node's code as
      `evaluate` produces it, the first failure ending the generation. */
  function ConcatEval(g: Graph, order: seq<nat>, evaluate: (Graph, nat) -> Result<string>): Result<string> {
    if |order| == 0 then Ok("")
    else match ConcatEval(g, order[..|order| - 1], evaluate)
      case Err(e) => Err(e)
      case Ok(code) =>
        match evaluate(g, order[|order| - 1])
        case Err(e) => Err(e)
        case Ok(s) => Ok(code + s)
  }

  /** Generation fails exactly when some node's evaluation fails, and then
      with the error of the first one that does. */
  lemma {:induction false} ConcatEvalFirstError(g: Graph, order: seq<nat>, evaluate: (Graph, nat) -> Result<string>)
    ensures ConcatEval(g, order, evaluate).Err? <==>
            exists k :: 0 <= k < |order| && evaluate(g, order[k]).Err?
    ensures ConcatEval(g, order, evaluate).Err? ==>
            exists k :: 0 <= k < |order| && evaluate(g, order[k]).Err?
              && ConcatEval(g, order, evaluate).error == evaluate(g, order[k]).error
              && forall j :: 0 <= j < k ==> evaluate(g, order[j]).Ok?
  {
    if |order| > 0 {
      var init := order[..|order| - 1];
      ConcatEvalFirstError(g, init, evaluate);
      forall k | 0 <= k < |init|
        ensures init[k] == order[k]
      {
      }
    }
  }

  /** `g'` is `g` with each instance's `nodeIndex` set to its position in
      `order`, and nothing else changed. */
  ghost predicate Numbered(g: Graph, g': Graph, order: seq<nat>) {
    && g'.registry == g.registry && g'.nameToIndex == g.nameToIndex
    && |g'.nodes| == |g.nodes|
    && (forall k :: 0 <= k < |g.nodes| ==> g'.nodes[k] == g.nodes[k].(nodeIndex := g'.nodes[k].nodeIndex))
    && (forall k :: 0 <= k < |g.nodes| ==> g'.nodes[k].nodeIndex < |order| && order[g'.nodes[k].nodeIndex] == k)
  }

  /** The numbering loop: each instance gets its position in the sorted
      order as its index. */
  method AssignIndices(g: Graph, order: seq<nat>) returns (g': Graph)
    requires IsTopologicalOrder(AdjacencyOf(g.nodes), order)
    ensures Numbered(g, g', order)
  {
    var n := |g.nodes|;
    var nodes := g.nodes;
    var p := 0;
    while p < |order|
      invariant 0 <= p <= |order| && |nodes| == n
      invariant forall k :: 0 <= k < n ==> nodes[k] == g.nodes[k].(nodeIndex := nodes[k].nodeIndex)
      invariant forall q :: 0 <= q < p ==> nodes[order[q]].nodeIndex == q
    {
      nodes := nodes[order[p] := nodes[order[p]].(nodeIndex := p)];
      p := p + 1;
    }
    g' := g.(nodes := nodes);
    forall k | 0 <= k < n
      ensures nodes[k].nodeIndex < |order| && order[nodes[k].nodeIndex] == k
    {
      assert k in order;
      var q :| 0 <= q < |order| && order[q] == k;
    }
  }

  /** Renumbering leaves every link and every name where it was. */
  lemma NumberedKeepsWf(g: Graph, g': Graph, order: seq<nat>)
    requires GraphShaped(g) && Numbered(g, g', order)
    ensures GraphShaped(g')
    ensures GraphWf(g) ==> GraphWf(g')
  {
    var a, b := g.nodes, g'.nodes;
    forall k | 0 <= k < |a|
      ensures InstanceWf(b[k]) && b[k].inputs == a[k].inputs && b[k].outputs == a[k].outputs
      ensures b[k].name == a[k].name
    {
      assert b[k] == a[k].(nodeIndex := b[k].nodeIndex);
      assert InstanceWf(a[k]);
    }
    forall r: InRef
      ensures ValidIn(a, r) <==> ValidIn(b, r)
      ensures ValidIn(a, r) ==> InLinkOf(a, r) == InLinkOf(b, r)
    {
    }
    forall o: OutRef
      ensures ValidOut(a, o) <==> ValidOut(b, o)
      ensures ValidOut(a, o) ==> OutLinksOf(a, o) == OutLinksOf(b, o)
    {
    }
  }

  /** `GenerateGLSL`: sort the instances topologically, failing with
      `CycleDetected` and changing nothing if the links form a cycle; else
      number the instances in sorted order and concatenate the code each
      emits, in that order. A failing evaluation ends the generation with its
      error, the numbering already done. `evaluate` stands for
      `Node::Evaluate`, which returns whatever the node type's `DoEvaluate`
      returns. The sorted order is returned alongside. */
  method GenerateGLSL(g: Graph, evaluate: (Graph, nat) -> Result<string>)
    returns (r: Result<string>, g': Graph, order: seq<nat>)
    requires GraphShaped(g)
    ensures HasCycle(AdjacencyOf(g.nodes)) ==> r == Err(CycleDetected) && g' == g
    ensures !HasCycle(AdjacencyOf(g.nodes)) ==>
      && IsTopologicalOrder(AdjacencyOf(g.nodes), order)
      && Numbered(g, g', order)
      && GraphShaped(g')
      && (GraphWf(g) ==> GraphWf(g'))
      && r == ConcatEval(g', order, evaluate)
  {
    AdjacencyClosed(g.nodes);
    var sorted := TopologicalSort(AdjacencyOf(g.nodes));
    if sorted.Err? {
      return Err(CycleDetected), g, [];
    }
    order := sorted.value;
    g' := AssignIndices(g, order);
    NumberedKeepsWf(g, g', order);
    r := EmitInOrder(g', order, evaluate);
  }

  /** The generation loop: appends each instance's code in sorted order; an
      exception from one evaluation propagates out of the loop. */
  method EmitInOrder(g: Graph, order: seq<nat>, evaluate: (Graph, nat) -> Result<string>)
    returns (r: Result<string>)
    ensures r == ConcatEval(g, order, evaluate)
  {
    r := Ok("");
    var q := 0;
    while q < |order|
      invariant 0 <= q <= |order|
      invariant r == ConcatEval(g, order[..q], evaluate)
    {
      assert order[..q + 1][..q] == order[..q];
      if r.Ok? {
        r := match evaluate(g, order[q])
          case Err(e) => Err(e)
          case Ok(s) => Ok(r.value + s);
      }
      q := q + 1;
    }
    assert order[..|order|] == order;
  }

  /** After generation a producer's number is below each consumer's, so its
      code comes first. */
  lemma ProducerNumberedFirst(g: Graph, g': Graph, order: seq<nat>, u: nat, v: nat)
    requires IsTopologicalOrder(AdjacencyOf(g.nodes), order) && Numbered(g, g', order)
    requires u < |g.nodes| && v < |g.nodes| && Feeds(g.nodes, u, v)
    ensures g'.nodes[u].nodeIndex < g'.nodes[v].nodeIndex
  {
    AdjacencyMeansFeeds(g.nodes, u, v);
    var i, j := g'.nodes[u].nodeIndex, g'.nodes[v].nodeIndex;
    assert order[j] in AdjacencyOf(g.nodes)[order[i]];
  }

  /** After generation no two outputs of the graph share a variable name. */
  lemma VarNamesUnique(g: Graph, g': Graph, order: seq<nat>, u: nat, o: nat, v: nat, p: nat)
    requires Numbered(g, g', order) && DistinctNodes(order)
    requires u < |g.nodes| && v < |g.nodes| && (u != v || o != p)
    ensures GetOutputVarName(g'.nodes[u], o) != GetOutputVarName(g'.nodes[v], p)
  {
    if u != v {
      assert order[g'.nodes[u].nodeIndex] != order[g'.nodes[v].nodeIndex];
    }
    VarNamesDistinct(g'.nodes[u], o, g'.nodes[v], p);
  }

  // ---------------------------------------------------------------------
  // What the stale edge of `Link` does to generation

  /** A prototype with two differently named inputs and one output. */
  ghost predicate TwoInOneOut(proto: Node) {
    |proto.inputs| == 2 && |proto.outputs| == 1 && proto.inputs[0].name != proto.inputs[1].name
  }

  /** Three unlinked instances of `proto`; by position they are B, C and D. */
  ghost predicate FreshTriple(proto: Node, nodes: Arena) {
    && TwoInOneOut(proto)
    && |nodes| == 3 && Wf(nodes)
    && forall k :: 0 <= k < 3 ==> nodes[k].proto == proto && Unlinked(nodes[k])
  }

  /** The socket names of a `TwoInOneOut` prototype resolve to their
      positions. */
  lemma TwoInOneOutLookups(proto: Node)
    requires TwoInOneOut(proto)
    ensures FindOutputIndex(proto, proto.outputs[0].name) == Some(0)
    ensures FindInputIndex(proto, proto.inputs[0].name) == Some(0)
    ensures FindInputIndex(proto, proto.inputs[1].name) == Some(1)
  {
    FindSocketOfDeclared(proto.outputs, 0);
    FindSocketOfDeclared(proto.inputs, 0);
    FindSocketOfDeclared(proto.inputs, 1);
  }

  /** `Link` as written, three times: C's output to B's first input, then D's
      output to that same input, then B's output to C's second input. The
      inputs end up saying D feeds B and B feeds C, which has no cycle. But C
      still lists B's input, so the adjacency the sort builds holds the
      cycle B, C, and the links are no longer symmetric. */
  function StaleLinks(proto: Node, nodes: Arena): (res: Arena)
    requires FreshTriple(proto, nodes)
    ensures Wf(res) && SameSkeleton(nodes, res)
    ensures forall r: InRef :: ValidIn(res, r) ==>
              InLinkOf(res, r) == if r == InRef(0, 0) then Some(OutRef(2, 0))
                                  else if r == InRef(1, 1) then Some(OutRef(0, 0)) else None
    ensures !Symmetric(res)
    ensures HasCycle(AdjacencyOf(res))
  {
    var out, x, y := proto.outputs[0].name, proto.inputs[0].name, proto.inputs[1].name;
    TwoInOneOutLookups(proto);
    var n1 := Link(nodes, 1, out, 0, x).1;
    var n2 := Link(n1, 2, out, 0, x).1;
    var res := Link(n2, 0, out, 1, y).1;
    StaleLinksFacts(proto, nodes, n1, n2, res);
    res
  }

  /** The three links' effect on B, C and D. */
  lemma StaleLinksFacts(proto: Node, n0: Arena, n1: Arena, n2: Arena, n3: Arena)
    requires FreshTriple(proto, n0)
    requires n1 == LinkResolved(n0, OutRef(1, 0), InRef(0, 0))
    requires n2 == LinkResolved(n1, OutRef(2, 0), InRef(0, 0))
    requires n3 == LinkResolved(n2, OutRef(0, 0), InRef(1, 1))
    ensures SameSkeleton(n0, n3)
    ensures forall r: InRef :: ValidIn(n3, r) ==>
              InLinkOf(n3, r) == if r == InRef(0, 0) then Some(OutRef(2, 0))
                                 else if r == InRef(1, 1) then Some(OutRef(0, 0)) else None
    ensures !Symmetric(n3)
    ensures HasCycle(AdjacencyOf(n3))
  {
    StaleLinksOutputs(proto, n0, n1, n2, n3);
    forall r: InRef | ValidIn(n0, r)
      ensures InLinkOf(n0, r).None?
    {
      assert Unlinked(n0[r.node]);
    }
    SameSkeletonTransitive(n0, n1, n2);
    RelinkedInputs(n0, n1, n2, n3);
    assert InLinkOf(n3, InRef(0, 0)) == Some(OutRef(2, 0));
    AdjacencyMeansFeeds(n3, 0, 1);
    AdjacencyMeansFeeds(n3, 1, 0);
    TwoNodeCycle(AdjacencyOf(n3));
  }

  /** The consumer lists after the three links: C keeps B's input. */
  lemma StaleLinksOutputs(proto: Node, n0: Arena, n1: Arena, n2: Arena, n3: Arena)
    requires FreshTriple(proto, n0)
    requires n1 == LinkResolved(n0, OutRef(1, 0), InRef(0, 0))
    requires n2 == LinkResolved(n1, OutRef(2, 0), InRef(0, 0))
    requires n3 == LinkResolved(n2, OutRef(0, 0), InRef(1, 1))
    ensures SameSkeleton(n0, n3)
    ensures OutLinksOf(n3, OutRef(0, 0)) == [InRef(1, 1)]
    ensures OutLinksOf(n3, OutRef(1, 0)) == [InRef(0, 0)]
    ensures OutLinksOf(n3, OutRef(2, 0)) == [InRef(0, 0)]
  {
    var o0, o1, o2, bx := OutRef(0, 0), OutRef(1, 0), OutRef(2, 0), InRef(0, 0);
    SameSkeletonTransitive(n0, n1, n2);
    SameSkeletonTransitive(n0, n2, n3);
    assert OutLinksOf(n0, o0) == [] && OutLinksOf(n0, o1) == [] && OutLinksOf(n0, o2) == [];
    assert OutLinksOf(n1, o1) == [bx] && OutLinksOf(n1, o2) == [] && OutLinksOf(n1, o0) == [];
    assert OutLinksOf(n2, o2) == [bx] && OutLinksOf(n2, o1) == [bx] && OutLinksOf(n2, o0) == [];
  }

  /** `b` is `a` with input `i` pointed at `o` and every other input link
      kept. */
  ghost predicate Repointed(a: Arena, b: Arena, i: InRef, o: OutRef) {
    && (forall r: InRef :: ValidIn(b, r) <==> ValidIn(a, r))
    && ValidIn(a, i) && InLinkOf(b, i) == Some(o)
    && (forall r: InRef :: ValidIn(a, r) && r != i ==> InLinkOf(b, r) == InLinkOf(a, r))
  }

  /** The input links after the three links: only B's first input, from D,
      and C's second input, from B. */
  lemma RelinkedInputs(n0: Arena, n1: Arena, n2: Arena, n3: Arena)
    requires forall r: InRef :: ValidIn(n0, r) ==> InLinkOf(n0, r).None?
    requires Repointed(n0, n1, InRef(0, 0), OutRef(1, 0))
    requires Repointed(n1, n2, InRef(0, 0), OutRef(2, 0))
    requires Repointed(n2, n3, InRef(1, 1), OutRef(0, 0))
    ensures forall r: InRef :: ValidIn(n3, r) ==>
              InLinkOf(n3, r) == if r == InRef(0, 0) then Some(OutRef(2, 0))
                                 else if r == InRef(1, 1) then Some(OutRef(0, 0)) else None
  {
    forall r: InRef | ValidIn(n3, r)
      ensures InLinkOf(n3, r) == if r == InRef(0, 0) then Some(OutRef(2, 0))
                                 else if r == InRef(1, 1) then Some(OutRef(0, 0)) else None
    {
      assert ValidIn(n2, r) && ValidIn(n1, r) && ValidIn(n0, r);
      if r == InRef(0, 0) {
        assert InLinkOf(n3, r) == InLinkOf(n2, r);
      } else if r != InRef(1, 1) {
        assert InLinkOf(n3, r) == InLinkOf(n2, r) == InLinkOf(n1, r) == InLinkOf(n0, r);
      }
    }
  }

  /** The same three links made by the corrected `LinkReplacing`: the second
      link takes B's input away from C, so the links stay symmetric, the
      adjacency is D to B to C, and the sort finds no cycle. */
  function ReplacingLinks(proto: Node, nodes: Arena): (res: Arena)
    requires FreshTriple(proto, nodes)
    ensures Wf(res) && SameSkeleton(nodes, res)
    ensures forall r: InRef :: ValidIn(res, r) ==>
              InLinkOf(res, r) == if r == InRef(0, 0) then Some(OutRef(2, 0))
                                  else if r == InRef(1, 1) then Some(OutRef(0, 0)) else None
    ensures Symmetric(res)
    ensures !HasCycle(AdjacencyOf(res))
  {
    var out, x, y := proto.outputs[0].name, proto.inputs[0].name, proto.inputs[1].name;
    TwoInOneOutLookups(proto);
    var n1 := LinkReplacing(nodes, 1, out, 0, x).1;
    assert n1 == LinkReplacingResolved(nodes, OutRef(1, 0), InRef(0, 0));
    assert n1[2].proto == proto by { assert SameSlots(nodes[2], n1[2]); }
    var n2 := LinkReplacing(n1, 2, out, 0, x).1;
    assert n2 == LinkReplacingResolved(n1, OutRef(2, 0), InRef(0, 0));
    assert n2[0].proto == proto by { assert SameSlots(n1[0], n2[0]) && SameSlots(nodes[0], n1[0]); }
    var res := LinkReplacing(n2, 0, out, 1, y).1;
    ReplacingLinksFacts(proto, nodes, n1, n2, res);
    res
  }

  /** Instances with no links at all have symmetric links. */
  lemma UnlinkedSymmetric(nodes: Arena)
    requires forall k :: 0 <= k < |nodes| ==> Unlinked(nodes[k])
    ensures Symmetric(nodes)
  {
    forall o: OutRef | ValidOut(nodes, o)
      ensures OutLinksOf(nodes, o) == []
    {
      assert Unlinked(nodes[o.node]);
    }
    forall r: InRef | ValidIn(nodes, r)
      ensures InLinkOf(nodes, r).None?
    {
      assert Unlinked(nodes[r.node]);
    }
  }

  /** The three corrected links' effect on B, C and D. */
  lemma ReplacingLinksFacts(proto: Node, n0: Arena, n1: Arena, n2: Arena, n3: Arena)
    requires FreshTriple(proto, n0)
    requires n1 == LinkReplacingResolved(n0, OutRef(1, 0), InRef(0, 0))
    requires n2 == LinkReplacingResolved(n1, OutRef(2, 0), InRef(0, 0))
    requires n3 == LinkReplacingResolved(n2, OutRef(0, 0), InRef(1, 1))
    ensures SameSkeleton(n0, n3)
    ensures forall r: InRef :: ValidIn(n3, r) ==>
              InLinkOf(n3, r) == if r == InRef(0, 0) then Some(OutRef(2, 0))
                                 else if r == InRef(1, 1) then Some(OutRef(0, 0)) else None
    ensures Symmetric(n3)
    ensures !HasCycle(AdjacencyOf(n3))
  {
    ReplacingLinksSymmetric(proto, n0, n1, n2, n3);
    ReplacingLinksOutputs(proto, n0, n1, n2, n3);
    forall r: InRef | ValidIn(n0, r)
      ensures InLinkOf(n0, r).None?
    {
      assert Unlinked(n0[r.node]);
    }
    SameSkeletonTransitive(n0, n1, n2);
    RelinkedInputs(n0, n1, n2, n3);
    forall k | 0 <= k < 3
      ensures |n3[k].outputs| == 1
    {
      assert SameSlots(n0[k], n3[k]);
    }
    ChainAcyclic(n3);
  }

  /** Each corrected link keeps the links symmetric. */
  lemma ReplacingLinksSymmetric(proto: Node, n0: Arena, n1: Arena, n2: Arena, n3: Arena)
    requires FreshTriple(proto, n0)
    requires n1 == LinkReplacingResolved(n0, OutRef(1, 0), InRef(0, 0))
    requires n2 == LinkReplacingResolved(n1, OutRef(2, 0), InRef(0, 0))
    requires n3 == LinkReplacingResolved(n2, OutRef(0, 0), InRef(1, 1))
    ensures Symmetric(n3)
  {
    UnlinkedSymmetric(n0);
    LinkReplacingPreservesSymmetric(n0, OutRef(1, 0), InRef(0, 0));
    LinkReplacingPreservesSymmetric(n1, OutRef(2, 0), InRef(0, 0));
    LinkReplacingPreservesSymmetric(n2, OutRef(0, 0), InRef(1, 1));
  }

  /** Three single-output nodes where the first feeds the second and the
      third feeds the first are ordered third, first, second. */
  lemma ChainAcyclic(nodes: Arena)
    requires Wf(nodes) && |nodes| == 3 && forall k :: 0 <= k < 3 ==> |nodes[k].outputs| == 1
    requires OutLinksOf(nodes, OutRef(0, 0)) == [InRef(1, 1)]
    requires OutLinksOf(nodes, OutRef(1, 0)) == []
    requires OutLinksOf(nodes, OutRef(2, 0)) == [InRef(0, 0)]
    ensures !HasCycle(AdjacencyOf(nodes))
  {
    var adj := AdjacencyOf(nodes);
    SingleOutputAdjacency(nodes);
    assert adj[0] == [1] && adj[1] == [] && adj[2] == [0];
    assert IsTopologicalOrder(adj, [2, 0, 1]);
    TopologicalOrderExcludesCycle(adj, [2, 0, 1]);
  }

  /** The consumer lists after the three corrected links: C lists nothing. */
  lemma ReplacingLinksOutputs(proto: Node, n0: Arena, n1: Arena, n2: Arena, n3: Arena)
    requires FreshTriple(proto, n0)
    requires n1 == LinkReplacingResolved(n0, OutRef(1, 0), InRef(0, 0))
    requires n2 == LinkReplacingResolved(n1, OutRef(2, 0), InRef(0, 0))
    requires n3 == LinkReplacingResolved(n2, OutRef(0, 0), InRef(1, 1))
    ensures SameSkeleton(n0, n3)
    ensures OutLinksOf(n3, OutRef(0, 0)) == [InRef(1, 1)]
    ensures OutLinksOf(n3, OutRef(1, 0)) == []
    ensures OutLinksOf(n3, OutRef(2, 0)) == [InRef(0, 0)]
  {
    ReplacingFirstTwo(proto, n0, n1, n2);
    SameSkeletonTransitive(n0, n2, n3);
  }

  /** After the first two corrected links: D lists B's input and C nothing. */
  lemma ReplacingFirstTwo(proto: Node, n0: Arena, n1: Arena, n2: Arena)
    requires FreshTriple(proto, n0)
    requires n1 == LinkReplacingResolved(n0, OutRef(1, 0), InRef(0, 0))
    requires n2 == LinkReplacingResolved(n1, OutRef(2, 0), InRef(0, 0))
    ensures SameSkeleton(n0, n2) && Wf(n2)
    ensures OutLinksOf(n2, OutRef(0, 0)) == [] && OutLinksOf(n2, OutRef(1, 0)) == []
    ensures OutLinksOf(n2, OutRef(2, 0)) == [InRef(0, 0)]
    ensures InLinkOf(n2, InRef(1, 1)).None?
  {
    var o0, o1, o2, bx := OutRef(0, 0), OutRef(1, 0), OutRef(2, 0), InRef(0, 0);
    SameSkeletonTransitive(n0, n1, n2);
    assert OutLinksOf(n0, o0) == [] && OutLinksOf(n0, o1) == [] && OutLinksOf(n0, o2) == [];
    assert InLinkOf(n0, bx).None? by { assert Unlinked(n0[0]); }
    assert OutLinksOf(n1, o1) == [bx] && OutLinksOf(n1, o2) == [] && OutLinksOf(n1, o0) == [];
    assert InLinkOf(n1, bx) == Some(o1);
    assert RemoveFirst([bx], bx) == [];
    assert InLinkOf(n0, InRef(1, 1)).None? by { assert Unlinked(n0[1]); }
  }

  /** When every node has one output, a node's adjacency list is the list of
      that output's consumers. */
  lemma SingleOutputAdjacency(nodes: Arena)
    requires Wf(nodes) && forall k :: 0 <= k < |nodes| ==> |nodes[k].outputs| == 1
    ensures forall u :: 0 <= u < |nodes| ==>
              AdjacencyOf(nodes)[u] == LinkTargets(OutLinksOf(nodes, OutRef(u, 0)))
  {
    forall u | 0 <= u < |nodes|
      ensures AdjacencyOf(nodes)[u] == LinkTargets(OutLinksOf(nodes, OutRef(u, 0)))
    {
      var outs := nodes[u].outputs;
      assert outs[..0] == [];
      assert OutputConsumers(outs) == [] + LinkTargets(outs[0].links);
    }
  }

  /** Relinking instances leaves a graph shaped. */
  lemma RelinkKeepsShaped(g: Graph, nodes: Arena)
    requires GraphShaped(g) && Wf(nodes) && SameSkeleton(g.nodes, nodes)
    ensures GraphShaped(g.(nodes := nodes))
  {
    forall k | 0 <= k < |nodes|
      ensures nodes[k].name == g.nodes[k].name
    {
      assert SameSlots(g.nodes[k], nodes[k]);
    }
  }

  /** A new graph over `reg` with three instances of `typeName` added. */
  method AddThree(reg: NodeRegistry, typeName: string) returns (g: Graph)
    requires typeName in reg && TwoInOneOut(reg[typeName])
    ensures GraphShaped(g) && g.registry == reg
    ensures FreshTriple(reg[typeName], g.nodes)
  {
    g := NewGraph(reg);
    var b, c, d;
    g, b := AddNode(g, typeName);
    g, c := AddNode(g, typeName);
    g, d := AddNode(g, typeName);
    assert g.nodes == [b.value, c.value, d.value];
    assert Unlinked(b.value) && Unlinked(c.value) && Unlinked(d.value);
  }

  /** From an empty graph: add three instances of a registered type with two
      inputs and one output, link them as `StaleLinks` does, and generate.
      The input links alone have no cycle, yet generation fails with
      `CycleDetected`, because of the entry C's output still holds. */
  method StaleLinksFailGeneration(reg: NodeRegistry, typeName: string, evaluate: (Graph, nat) -> Result<string>)
    returns (r: Result<string>)
    requires typeName in reg && TwoInOneOut(reg[typeName])
    ensures r == Err(CycleDetected)
  {
    var proto := reg[typeName];
    var g := AddThree(reg, typeName);
    var linked := g.(nodes := StaleLinks(proto, g.nodes));
    RelinkKeepsShaped(g, linked.nodes);
    var g', order;
    r, g', order := GenerateGLSL(linked, evaluate);
  }
}
