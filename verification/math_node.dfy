/** The scalar math node (src/implementation/nodes/math.cpp): its socket
    layout and the GLSL text it emits for each operation.

    The socket-name constants live in a header that is not part of this
    model; they are written here as lower-case strings. */
module MathNode {
  import opened Results
  import opened Values
  import opened Sockets
  import opened Nodes
  import opened GraphNodes

  const IN_OPERATION := "operation"
  const IN_CLAMP := "clamp"
  const IN_VALUE1 := "value1"
  const IN_VALUE2 := "value2"
  const IN_VALUE3 := "value3"
  const OUT_VALUE := "value"

  /** `MathNode::Operation`. `Unlisted` is an enum value no case of the
      switch handles. */
  datatype MathOp =
    | Add | Subtract | Multiply | Divide | MultiplyAdd
    | Sine | Cosine | Tangent | SinH | CosH | TanH
    | ArcSine | ArcCosine | ArcTangent
    | Power | Logarithm | Minimum | Maximum | Round
    | LessThan | GreaterThan | Modulo | FlooredModulo | Absolute | ArcTan2
    | Floor | Ceil | Fraction | Trunc | Snap | Wrap | PingPong
    | Sqrt | InverseSqrt | Sign | Exponent | Radians | Degrees
    | SmoothMin | SmoothMax | Compare
    | Unlisted(ordinal: int)

  /** The constructor: an operation enum, a Boolean clamp flag and three Float
      operands, one Float output, and the "math" module. */
  function MathPrototype(typeName: string): (n: Node)
    ensures n.typeName == typeName
    ensures |n.inputs| == 5 && |n.outputs| == 1
    ensures n.inputs[0] == NewSocket(IN_OPERATION, Enum)
    ensures n.inputs[1] == NewSocket(IN_CLAMP, Boolean)
    ensures n.inputs[2] == NewSocket(IN_VALUE1, Float)
    ensures n.inputs[3] == NewSocket(IN_VALUE2, Float)
    ensures n.inputs[4] == NewSocket(IN_VALUE3, Float)
    ensures n.outputs[0] == NewSocket(OUT_VALUE, Float)
    ensures n.dependencies == ["math"]
  {
    var n := NewNode(typeName);
    var n := AddInput(n, IN_OPERATION, Enum);
    var n := AddInput(n, IN_CLAMP, Boolean);
    var n := AddInput(n, IN_VALUE1, Float);
    var n := AddInput(n, IN_VALUE2, Float);
    var n := AddInput(n, IN_VALUE3, Float);
    var n := AddOutput(n, OUT_VALUE, Float);
    AddModuleDependency(n, "math")
  }

  /** Every socket name of the layout resolves to its declared position. */
  lemma MathLayoutLookups(typeName: string)
    ensures FindInputIndex(MathPrototype(typeName), IN_OPERATION) == Some(0)
    ensures FindInputIndex(MathPrototype(typeName), IN_CLAMP) == Some(1)
    ensures FindInputIndex(MathPrototype(typeName), IN_VALUE1) == Some(2)
    ensures FindInputIndex(MathPrototype(typeName), IN_VALUE2) == Some(3)
    ensures FindInputIndex(MathPrototype(typeName), IN_VALUE3) == Some(4)
    ensures FindOutputIndex(MathPrototype(typeName), OUT_VALUE) == Some(0)
  {
    var n := MathPrototype(typeName);
    assert DistinctNames(n.inputs);
    FindSocketOfDeclared(n.inputs, 0);
    FindSocketOfDeclared(n.inputs, 1);
    FindSocketOfDeclared(n.inputs, 2);
    FindSocketOfDeclared(n.inputs, 3);
    FindSocketOfDeclared(n.inputs, 4);
    FindSocketOfDeclared(n.outputs, 0);
  }

  /** The right-hand side of the main statement for each operation. */
  function MathExpr(op: MathOp, v1: string, v2: string, v3: string): string {
    match op
    case Add => v1 + " + " + v2
    case Subtract => v1 + " - " + v2
    case Multiply => v1 + " * " + v2
    case Divide => v1 + " / " + v2
    case MultiplyAdd => v1 + " * " + v2 + " + " + v3
    case Sine => "sin(" + v1 + ")"
    case Cosine => "cos(" + v1 + ")"
    case Tangent => "tan(" + v1 + ")"
    case SinH => "sinh(" + v1 + ")"
    case CosH => "cosh(" + v1 + ")"
    case TanH => "tanh(" + v1 + ")"
    case ArcSine => "asin(" + v1 + ")"
    case ArcCosine => "acos(" + v1 + ")"
    case ArcTangent => "atan(" + v1 + ")"
    case Power => "pow(" + v1 + ", " + v2 + ")"
    case Logarithm => "log(" + v1 + ")"
    case Minimum => "min(" + v1 + ", " + v2 + ")"
    case Maximum => "max(" + v1 + ", " + v2 + ")"
    case Round => "round(" + v1 + ")"
    case LessThan => "max(sign(" + v2 + " -" + v1 + "), 0.0)"
    case GreaterThan => "max(sign(" + v1 + " -" + v2 + "), 0.0)"
    case Modulo => "mod(" + v1 + ", " + v2 + ")"
    case FlooredModulo => "floored_modulo(" + v1 + ", " + v2 + ")"
    case Absolute => "abs(" + v1 + ")"
    case ArcTan2 => "atan(" + v1 + ", " + v2 + ")"
    case Floor => "floor(" + v1 + ")"
    case Ceil => "ceil(" + v1 + ")"
    case Fraction => "fract(" + v1 + ")"
    case Trunc => "trunc(" + v1 + ")"
    case Snap => "floor(" + v1 + " /" + v2 + ") *" + v2
    case Wrap => "wrap(" + v1 + ", " + v2 + ", " + v3 + ")"
    case PingPong => "pingpong(" + v1 + ", " + v2 + ")"
    case Sqrt => "sqrt(" + v1 + ")"
    case InverseSqrt => "inversesqrt(" + v1 + ")"
    case Sign => "sign(" + v1 + ")"
    case Exponent => "exp(" + v1 + ")"
    case Radians => "radians(" + v1 + ")"
    case Degrees => "degrees(" + v1 + ")"
    case SmoothMin => "smoothmin(" + v1 + ", " + v2 + ", " + v3 + ")"
    case SmoothMax => "-smoothmin(-" + v1 + ", -" + v2 + ", " + v3 + ")"
    case Compare => "((abs(" + v1 + " -" + v2 + ") <= max(" + v3 + ", FLT_EPSILON))) ? 1.0 : 0.0"
    case Unlisted(_) => ""
  }

  /** How many of value1, value2, value3 an operation reads. */
  function Arity(op: MathOp): nat {
    match op
    case Add | Subtract | Multiply | Divide | Power | Minimum | Maximum
      | LessThan | GreaterThan | Modulo | FlooredModulo | ArcTan2 | Snap | PingPong => 2
    case MultiplyAdd | Wrap | SmoothMin | SmoothMax | Compare => 3
    case Unlisted(_) => 0
    case _ => 1
  }

  /** The text of an operation depends on no operand past its arity: the
      single-argument functions mention only value1, the binary ones only
      value1 and value2. */
  lemma MathExprReadsOnlyOperands(op: MathOp, v1: string, v2: string, v3: string, w1: string, w2: string, w3: string)
    ensures Arity(op) == 0 ==> MathExpr(op, v1, v2, v3) == MathExpr(op, w1, w2, w3)
    ensures Arity(op) <= 1 ==> MathExpr(op, v1, v2, v3) == MathExpr(op, v1, w2, w3)
    ensures Arity(op) <= 2 ==> MathExpr(op, v1, v2, v3) == MathExpr(op, v1, v2, w3)
  {
  }

  /** SmoothMax is the negation of SmoothMin over the negated first two
      operands. */
  lemma SmoothMaxNegatesSmoothMin(v1: string, v2: string, v3: string)
    ensures MathExpr(SmoothMax, v1, v2, v3) == "-" + MathExpr(SmoothMin, "-" + v1, "-" + v2, v3)
  {
    var tail := ", " + v3 + ")";
    assert MathExpr(SmoothMax, v1, v2, v3) == "-smoothmin(-" + v1 + ", -" + v2 + tail;
    assert MathExpr(SmoothMin, "-" + v1, "-" + v2, v3) == "smoothmin(" + ("-" + v1) + ", " + ("-" + v2) + tail;
    assert "-smoothmin(-" == "-" + "smoothmin(" + "-";
    assert ", -" == ", " + "-";
  }

  /** LessThan is GreaterThan with the operands exchanged. */
  lemma LessThanIsSwappedGreaterThan(v1: string, v2: string, v3: string)
    ensures MathExpr(LessThan, v1, v2, v3) == MathExpr(GreaterThan, v2, v1, v3)
  {
  }

  /** The post-statement that saturates the output when the clamp text is
      true. */
  function ClampStatement(outVar: string, clampText: string): string {
    outVar + " = " + clampText + " ? clamp(" + outVar + ", 0.0, 1.0) : " + outVar + ";\n"
  }

  /** `DoEvaluate` on resolved texts: the output declaration, " = ", the
      operation's expression and ";\n"; then the clamp post-statement unless
      the clamp input is the constant false (`constClamp` is the constant
      value of the clamp input, `None` when it is not a constant). */
  function EmitMath(op: MathOp, decl: string, outVar: string, v1: string, v2: string, v3: string,
                    clampText: string, constClamp: Option<bool>): (code: string)
    ensures var main := decl + " = " + MathExpr(op, v1, v2, v3) + ";\n";
      && |main| <= |code| && code[..|main|] == main
      && (constClamp == Some(false) <==> code == main)
      && (constClamp != Some(false) ==> code[|main|..] == ClampStatement(outVar, clampText))
  {
    var main := decl + " = " + MathExpr(op, v1, v2, v3) + ";\n";
    if constClamp.Some? && !constClamp.value then main
    else
      var code := main + ClampStatement(outVar, clampText);
      assert |code| > |main|;
      code
  }

  /** `DoEvaluate` on an instance: the operands and the clamp text are
      resolved through `GetInputNameOrValue` by name, the output variable
      through `GetOutputVarName` by name; `declare` stands for
      `GetGlslOutputDeclaration`, `render` for the value-to-text conversion,
      `op` and `constClamp` for the constant values `GetConstantInputValue`
      reads. Any failed lookup is the error of the first one. */
  function EvaluateMath(nodes: Arena, n: nat, render: (Socket, Value) -> string,
                        declare: (NodeInstance, nat) -> string,
                        op: MathOp, constClamp: Option<bool>): (r: Result<string>)
    requires Wf(nodes) && n < |nodes|
    ensures r.Err? ==> r.error == InvalidArgument
  {
    var x := nodes[n];
    match FindOutputIndex(x.proto, OUT_VALUE)
    case None => Err(InvalidArgument)
    case Some(out) =>
      match (GetInputNameOrValueByName(nodes, n, IN_VALUE1, render),
             GetInputNameOrValueByName(nodes, n, IN_VALUE2, render),
             GetInputNameOrValueByName(nodes, n, IN_VALUE3, render),
             GetInputNameOrValueByName(nodes, n, IN_CLAMP, render))
      case (Ok(v1), Ok(v2), Ok(v3), Ok(c)) =>
        Ok(EmitMath(op, declare(x, out), GetOutputVarName(x, out), v1, v2, v3, c, constClamp))
      case _ => Err(InvalidArgument)
  }

  /** On an instance of the math prototype every lookup succeeds, and the
      text is the emitted text for the output at position 0 and the inputs
      at positions 1 to 4. */
  lemma EvaluateMathOnPrototype(nodes: Arena, n: nat, render: (Socket, Value) -> string,
                                declare: (NodeInstance, nat) -> string,
                                op: MathOp, constClamp: Option<bool>)
    requires Wf(nodes) && n < |nodes| && nodes[n].proto == MathPrototype(nodes[n].proto.typeName)
    ensures EvaluateMath(nodes, n, render, declare, op, constClamp) ==
            Ok(EmitMath(op, declare(nodes[n], 0), GetOutputVarName(nodes[n], 0),
                        GetInputNameOrValue(nodes, n, 2, render).value,
                        GetInputNameOrValue(nodes, n, 3, render).value,
                        GetInputNameOrValue(nodes, n, 4, render).value,
                        GetInputNameOrValue(nodes, n, 1, render).value, constClamp))
  {
    MathLayoutLookups(nodes[n].proto.typeName);
  }
}
