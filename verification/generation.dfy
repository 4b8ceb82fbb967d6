/** Code generation with the three modelled emitters plugged in
    (src/implementation/node.cpp, `Node::Evaluate`, and the `DoEvaluate`
    overrides of math.cpp, vector_math.cpp and clamp.cpp).

    `Node::Evaluate` calls the virtual `DoEvaluate` of the instance's node
    class and returns its result unchanged. The node class of a prototype is
    not represented in this model; an instance belongs to an emitter here
    when its prototype has that emitter's socket layout. */
module Generation {
  import opened Results
  import opened Values
  import opened Sockets
  import opened Nodes
  import opened GraphNodes
  import opened Scheduler
  import opened Graphs
  import MathNode
  import VectorMathNode
  import ClampNode

  /** What the emitters read from outside this model: the value-to-text
      conversion, `GetGlslOutputDeclaration`, the constants each emitter
      takes from its enum inputs through `GetConstantInputValue`, and the
      `DoEvaluate` of every node class other than the three modelled. */
  datatype Emitters = Emitters(
    render: (Socket, Value) -> string,
    declare: (NodeInstance, nat) -> string,
    mathOp: NodeInstance -> MathNode.MathOp,
    mathClamp: NodeInstance -> Option<bool>,
    vectorOp: NodeInstance -> VectorMathNode.VectorOp,
    clampType: NodeInstance -> ClampNode.ClampType,
    other: (Graph, nat) -> Result<string>)

  predicate IsMath(p: Node) {
    p == MathNode.MathPrototype(p.typeName)
  }

  predicate IsVectorMath(p: Node) {
    p == VectorMathNode.VectorMathPrototype(p.typeName)
  }

  predicate IsClamp(p: Node) {
    p == ClampNode.ClampPrototype(p.typeName)
  }

  /** The three layouts differ in their socket counts, so an instance has at
      most one emitter. */
  lemma EmittersExclusive(p: Node)
    ensures !(IsMath(p) && IsVectorMath(p))
    ensures !(IsMath(p) && IsClamp(p))
    ensures !(IsVectorMath(p) && IsClamp(p))
  {
    var t := p.typeName;
    assert |MathNode.MathPrototype(t).inputs| == 5;
    assert |VectorMathNode.VectorMathPrototype(t).outputs| == 2;
    assert |ClampNode.ClampPrototype(t).inputs| == 4 && |ClampNode.ClampPrototype(t).outputs| == 1;
  }

  /** `Node::Evaluate` on the instance at position `n`: exactly what the
      `DoEvaluate` of its emitter returns, with the constants `e` reads from
      it, and the layouts no emitter here has are left to `e.other`. A handle
      outside the list or a list with dangling links yields an invalid
      argument: the source passes a reference, which cannot dangle. */
  function EvaluateInstance(e: Emitters, g: Graph, n: nat): (r: Result<string>)
    ensures !(n < |g.nodes| && Wf(g.nodes)) ==> r == Err(InvalidArgument)
    ensures n < |g.nodes| && Wf(g.nodes) && IsMath(g.nodes[n].proto) ==> r == EvaluateAsMath(e, g, n)
    ensures n < |g.nodes| && Wf(g.nodes) && IsVectorMath(g.nodes[n].proto) ==> r == EvaluateAsVectorMath(e, g, n)
    ensures n < |g.nodes| && Wf(g.nodes) && IsClamp(g.nodes[n].proto) ==> r == EvaluateAsClamp(e, g, n)
    ensures n < |g.nodes| && Wf(g.nodes) &&
            !IsMath(g.nodes[n].proto) && !IsVectorMath(g.nodes[n].proto) && !IsClamp(g.nodes[n].proto) ==>
      r == e.other(g, n)
  {
    if n < |g.nodes| && CheckWf(g.nodes) then
      var x := g.nodes[n];
      EmittersExclusive(x.proto);
      if IsMath(x.proto) then EvaluateAsMath(e, g, n)
      else if IsVectorMath(x.proto) then EvaluateAsVectorMath(e, g, n)
      else if IsClamp(x.proto) then EvaluateAsClamp(e, g, n)
      else e.other(g, n)
    else
      Err(InvalidArgument)
  }

  /** `MathNode::DoEvaluate` on a math instance: the math text over its
      output 0 and the texts of inputs 2, 3, 4 (operands) and 1 (clamp). */
  function EvaluateAsMath(e: Emitters, g: Graph, n: nat): (r: Result<string>)
    requires n < |g.nodes| && Wf(g.nodes) && IsMath(g.nodes[n].proto)
    ensures var x := g.nodes[n];
      r == Ok(MathNode.EmitMath(e.mathOp(x), e.declare(x, 0), GetOutputVarName(x, 0),
                                GetInputNameOrValue(g.nodes, n, 2, e.render).value,
                                GetInputNameOrValue(g.nodes, n, 3, e.render).value,
                                GetInputNameOrValue(g.nodes, n, 4, e.render).value,
                                GetInputNameOrValue(g.nodes, n, 1, e.render).value, e.mathClamp(x)))
  {
    var x := g.nodes[n];
    MathNode.EvaluateMathOnPrototype(g.nodes, n, e.render, e.declare, e.mathOp(x), e.mathClamp(x));
    MathNode.EvaluateMath(g.nodes, n, e.render, e.declare, e.mathOp(x), e.mathClamp(x))
  }

  /** `VectorMathNode::DoEvaluate` on a vector math instance: the vector
      math text declared through output 0 over inputs 1, 2 and 3, failing
      with the unknown-operation error exactly on an unhandled operation. */
  function EvaluateAsVectorMath(e: Emitters, g: Graph, n: nat): (r: Result<string>)
    requires n < |g.nodes| && Wf(g.nodes) && IsVectorMath(g.nodes[n].proto)
    ensures var x := g.nodes[n];
      && r == VectorMathNode.EmitVectorMath(e.vectorOp(x), e.declare(x, 0),
                                            GetInputNameOrValue(g.nodes, n, 1, e.render).value,
                                            GetInputNameOrValue(g.nodes, n, 2, e.render).value,
                                            GetInputNameOrValue(g.nodes, n, 3, e.render).value)
      && (r.Err? <==> e.vectorOp(x).Unlisted?)
      && (r.Err? ==> r.error == UnknownOperation)
  {
    var x := g.nodes[n];
    VectorMathNode.EvaluateVectorMathOnPrototype(g.nodes, n, e.render, e.declare, e.vectorOp(x));
    VectorMathNode.EvaluateVectorMath(g.nodes, n, e.render, e.declare, e.vectorOp(x))
  }

  /** `ClampNode::DoEvaluate` on a clamp instance: the clamp text over its
      output 0 and inputs 1, 2 and 3. */
  function EvaluateAsClamp(e: Emitters, g: Graph, n: nat): (r: Result<string>)
    requires n < |g.nodes| && Wf(g.nodes) && IsClamp(g.nodes[n].proto)
    ensures var x := g.nodes[n];
      r == Ok(ClampNode.EmitClamp(e.clampType(x), e.declare(x, 0), GetOutputVarName(x, 0),
                                  GetInputNameOrValue(g.nodes, n, 1, e.render).value,
                                  GetInputNameOrValue(g.nodes, n, 2, e.render).value,
                                  GetInputNameOrValue(g.nodes, n, 3, e.render).value))
  {
    var x := g.nodes[n];
    ClampNode.EvaluateClampOnPrototype(g.nodes, n, e.render, e.declare, e.clampType(x));
    ClampNode.EvaluateClamp(g.nodes, n, e.render, e.declare, e.clampType(x))
  }

  /** The per-instance evaluation handed to `GenerateGLSL`. */
  function Evaluator(e: Emitters): (f: (Graph, nat) -> Result<string>)
    ensures forall h, n :: f(h, n) == EvaluateInstance(e, h, n)
  {
    (h: Graph, n: nat) => EvaluateInstance(e, h, n)
  }

  /** Every instance has one of the three modelled layouts. */
  ghost predicate AllModelled(g: Graph) {
    forall n :: 0 <= n < |g.nodes| ==>
      IsMath(g.nodes[n].proto) || IsVectorMath(g.nodes[n].proto) || IsClamp(g.nodes[n].proto)
  }

  /** On a well-formed node list of modelled instances, one evaluation fails
      exactly for a vector math instance with an unhandled operation, and
      then with the unknown-operation error. */
  lemma EvaluateModelledFails(e: Emitters, g: Graph, n: nat)
    requires Wf(g.nodes) && n < |g.nodes|
    requires IsMath(g.nodes[n].proto) || IsVectorMath(g.nodes[n].proto) || IsClamp(g.nodes[n].proto)
    ensures EvaluateInstance(e, g, n).Err? <==>
            IsVectorMath(g.nodes[n].proto) && e.vectorOp(g.nodes[n]).Unlisted?
    ensures EvaluateInstance(e, g, n).Err? ==> EvaluateInstance(e, g, n).error == UnknownOperation
  {
    EmittersExclusive(g.nodes[n].proto);
  }

  /** `GenerateGLSL` with the three emitters as the evaluation. On acyclic
      links the generation is the in-order concatenation of what each
      instance's emitter returns; when every instance is a math, vector math
      or clamp instance, it fails exactly when some vector math instance
      names an operation its switch does not handle, and then with that
      error. */
  method GenerateWithEmitters(g: Graph, e: Emitters) returns (r: Result<string>, g': Graph, order: seq<nat>)
    requires GraphShaped(g)
    ensures HasCycle(AdjacencyOf(g.nodes)) ==> r == Err(CycleDetected) && g' == g
    ensures !HasCycle(AdjacencyOf(g.nodes)) ==>
      && IsTopologicalOrder(AdjacencyOf(g.nodes), order)
      && Numbered(g, g', order)
      && GraphShaped(g')
      && r == ConcatEval(g', order, Evaluator(e))
    ensures !HasCycle(AdjacencyOf(g.nodes)) && AllModelled(g) ==>
      && (r.Err? <==> exists n :: 0 <= n < |g'.nodes| && FailsAt(e, g', n))
      && (r.Err? ==> r.error == UnknownOperation)
  {
    r, g', order := GenerateGLSL(g, Evaluator(e));
    if !HasCycle(AdjacencyOf(g.nodes)) && AllModelled(g) {
      GenerationFailures(g, g', order, e);
    }
  }

  /** The instance at `n` names an operation the vector math switch does
      not handle. */
  ghost predicate FailsAt(e: Emitters, g: Graph, n: nat)
    requires n < |g.nodes|
  {
    IsVectorMath(g.nodes[n].proto) && e.vectorOp(g.nodes[n]).Unlisted?
  }

  /** Renumbering keeps every prototype, so it keeps the layouts. */
  lemma NumberedKeepsModelled(g: Graph, g': Graph, order: seq<nat>)
    requires Numbered(g, g', order) && AllModelled(g)
    ensures AllModelled(g')
  {
    forall n | 0 <= n < |g'.nodes|
      ensures IsMath(g'.nodes[n].proto) || IsVectorMath(g'.nodes[n].proto) || IsClamp(g'.nodes[n].proto)
    {
      assert g'.nodes[n].proto == g.nodes[n].proto;
    }
  }

  lemma ModelledFailures(g: Graph, e: Emitters)
    requires Wf(g.nodes) && AllModelled(g)
    ensures forall n :: 0 <= n < |g.nodes| ==>
      (Evaluator(e)(g, n).Err? <==> FailsAt(e, g, n))
      && (Evaluator(e)(g, n).Err? ==> Evaluator(e)(g, n).error == UnknownOperation)
  {
    forall n | 0 <= n < |g.nodes|
      ensures Evaluator(e)(g, n).Err? <==> FailsAt(e, g, n)
      ensures Evaluator(e)(g, n).Err? ==> Evaluator(e)(g, n).error == UnknownOperation
    {
      EvaluateModelledFails(e, g, n);
    }
  }

  lemma GenerationFailures(g: Graph, g': Graph, order: seq<nat>, e: Emitters)
    requires IsTopologicalOrder(AdjacencyOf(g.nodes), order)
    requires Numbered(g, g', order) && GraphShaped(g') && AllModelled(g)
    ensures var r := ConcatEval(g', order, Evaluator(e));
      && (r.Err? <==> exists n :: 0 <= n < |g'.nodes| && FailsAt(e, g', n))
      && (r.Err? ==> r.error == UnknownOperation)
  {
    var f := Evaluator(e);
    NumberedKeepsModelled(g, g', order);
    ModelledFailures(g', e);
    ConcatEvalFirstError(g', order, f);
    var adj := AdjacencyOf(g.nodes);
    assert |adj| == |g'.nodes|;
    if exists n :: 0 <= n < |g'.nodes| && FailsAt(e, g', n) {
      var n :| 0 <= n < |g'.nodes| && FailsAt(e, g', n);
      assert n in order;
      var k :| 0 <= k < |order| && order[k] == n;
      assert f(g', order[k]).Err?;
    }
    if ConcatEval(g', order, f).Err? {
      var k :| 0 <= k < |order| && f(g', order[k]).Err?
        && ConcatEval(g', order, f).error == f(g', order[k]).error;
      assert order[k] < |adj|;
    }
  }
}
