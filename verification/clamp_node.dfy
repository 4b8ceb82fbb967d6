/** The clamp node (src/implementation/nodes/clamp.cpp): its socket layout and
    the GLSL text it emits in MinMax and Range mode.

    The socket-name constants live in a header that is not part of this
    model; they are written here as lower-case strings. */
module ClampNode {
  import opened Results
  import opened Values
  import opened Sockets
  import opened Nodes
  import opened GraphNodes

  const CONST_CLAMP_TYPE := "clamp_type"
  const IN_VALUE := "value"
  const IN_MIN := "min"
  const IN_MAX := "max"
  const OUT_RESULT := "result"

  /** `ClampNode::ClampType`. `Unlisted` is an enum value no case of the
      switch handles. */
  datatype ClampType = MinMax | Range | Unlisted(ordinal: int)

  /** The constructor: a clamp-type enum, then Float value, min and max, and
      one Float result. */
  function ClampPrototype(typeName: string): (n: Node)
    ensures n.typeName == typeName
    ensures |n.inputs| == 4 && |n.outputs| == 1
    ensures n.inputs[0] == NewSocket(CONST_CLAMP_TYPE, Enum)
    ensures n.inputs[1] == NewSocket(IN_VALUE, Float)
    ensures n.inputs[2] == NewSocket(IN_MIN, Float)
    ensures n.inputs[3] == NewSocket(IN_MAX, Float)
    ensures n.outputs[0] == NewSocket(OUT_RESULT, Float)
    ensures n.dependencies == []
  {
    var n := NewNode(typeName);
    var n := AddInput(n, CONST_CLAMP_TYPE, Enum);
    var n := AddInput(n, IN_VALUE, Float);
    var n := AddInput(n, IN_MIN, Float);
    var n := AddInput(n, IN_MAX, Float);
    AddOutput(n, OUT_RESULT, Float)
  }

  /** Every socket name of the layout resolves to its declared position. */
  lemma ClampLayoutLookups(typeName: string)
    ensures FindInputIndex(ClampPrototype(typeName), CONST_CLAMP_TYPE) == Some(0)
    ensures FindInputIndex(ClampPrototype(typeName), IN_VALUE) == Some(1)
    ensures FindInputIndex(ClampPrototype(typeName), IN_MIN) == Some(2)
    ensures FindInputIndex(ClampPrototype(typeName), IN_MAX) == Some(3)
    ensures FindOutputIndex(ClampPrototype(typeName), OUT_RESULT) == Some(0)
  {
    var n := ClampPrototype(typeName);
    assert DistinctNames(n.inputs);
    FindSocketOfDeclared(n.inputs, 0);
    FindSocketOfDeclared(n.inputs, 1);
    FindSocketOfDeclared(n.inputs, 2);
    FindSocketOfDeclared(n.inputs, 3);
    FindSocketOfDeclared(n.outputs, 0);
  }

  /** One assignment of `clamp(value, lo, hi)` to `target`. */
  function ClampAssign(target: string, value: string, lo: string, hi: string): string {
    target + " = clamp(" + value + ", " + lo + ", " + hi + ");\n"
  }

  /** The statements after the declaration. Every assignment in them is a
      `ClampAssign` to `outVar`. */
  function ClampBody(ct: ClampType, outVar: string, value: string, min: string, max: string): string {
    match ct
    case MinMax => ClampAssign(outVar, value, min, max)
    case Range =>
      "if(" + min + " > " + max + ")\n"
        + "\t" + ClampAssign(outVar, value, max, min)
        + "else\n"
        + "\t" + ClampAssign(outVar, value, min, max)
    case Unlisted(_) => ""
  }

  /** `DoEvaluate` on resolved texts: the output declaration as a statement of
      its own, then the clamp statements. */
  function EmitClamp(ct: ClampType, decl: string, outVar: string, value: string, min: string, max: string): (code: string)
    ensures |code| >= |decl| + 2 && code[..|decl| + 2] == decl + ";\n"
    ensures code[|decl| + 2..] == ClampBody(ct, outVar, value, min, max)
  {
    decl + ";\n" + ClampBody(ct, outVar, value, min, max)
  }

  /** Range mode is a guard `min > max` choosing between the MinMax statement
      with the bounds exchanged and the MinMax statement itself. */
  lemma RangeIsGuardedMinMax(outVar: string, value: string, min: string, max: string)
    ensures ClampBody(Range, outVar, value, min, max) ==
            "if(" + min + " > " + max + ")\n"
              + "\t" + ClampBody(MinMax, outVar, value, max, min)
              + "else\n"
              + "\t" + ClampBody(MinMax, outVar, value, min, max)
  {
  }

  /** MinMax emits one assignment, to the output variable, and it mentions
      the bounds in order. */
  lemma MinMaxAssignsOutput(outVar: string, value: string, min: string, max: string)
    ensures var b := ClampBody(MinMax, outVar, value, min, max);
      && |b| > |outVar| + 3 && b[..|outVar| + 3] == outVar + " = "
  {
    var b := ClampBody(MinMax, outVar, value, min, max);
    assert b == outVar + " = " + ("clamp(" + value + ", " + min + ", " + max + ");\n");
  }

  /** `DoEvaluate` on an instance: operands resolved by name, the output
      variable of the "result" output, `ct` the constant clamp type. */
  function EvaluateClamp(nodes: Arena, n: nat, render: (Socket, Value) -> string,
                         declare: (NodeInstance, nat) -> string, ct: ClampType): (r: Result<string>)
    requires Wf(nodes) && n < |nodes|
    ensures r.Err? ==> r.error == InvalidArgument
  {
    var x := nodes[n];
    match FindOutputIndex(x.proto, OUT_RESULT)
    case None => Err(InvalidArgument)
    case Some(out) =>
      match (GetInputNameOrValueByName(nodes, n, IN_VALUE, render),
             GetInputNameOrValueByName(nodes, n, IN_MIN, render),
             GetInputNameOrValueByName(nodes, n, IN_MAX, render))
      case (Ok(v), Ok(lo), Ok(hi)) => Ok(EmitClamp(ct, declare(x, out), GetOutputVarName(x, out), v, lo, hi))
      case _ => Err(InvalidArgument)
  }

  /** On an instance of the clamp prototype every lookup succeeds and every
      assignment targets the variable of output 0, the "result" output. */
  lemma EvaluateClampOnPrototype(nodes: Arena, n: nat, render: (Socket, Value) -> string,
                                 declare: (NodeInstance, nat) -> string, ct: ClampType)
    requires Wf(nodes) && n < |nodes| && nodes[n].proto == ClampPrototype(nodes[n].proto.typeName)
    ensures EvaluateClamp(nodes, n, render, declare, ct) ==
            Ok(EmitClamp(ct, declare(nodes[n], 0), GetOutputVarName(nodes[n], 0),
                         GetInputNameOrValue(nodes, n, 1, render).value,
                         GetInputNameOrValue(nodes, n, 2, render).value,
                         GetInputNameOrValue(nodes, n, 3, render).value))
  {
    ClampLayoutLookups(nodes[n].proto.typeName);
  }
}
