/** The vector math node (src/implementation/nodes/vector_math.cpp): its socket
    layout and the GLSL text it emits for each operation. Unlike the scalar
    math node it has a `default` case, which fails.

    The socket-name constants live in a header that is not part of this
    model; they are written here as lower-case strings. */
module VectorMathNode {
  import opened Results
  import opened Values
  import opened Sockets
  import opened Nodes
  import opened GraphNodes

  const IN_OPERATION := "operation"
  const IN_VECTOR1 := "vector1"
  const IN_VECTOR2 := "vector2"
  const IN_VECTOR3 := "vector3"
  const OUT_VALUE := "value"
  const OUT_VECTOR := "vector"

  /** `VectorMathNode::Operation`. `Unlisted` is an enum value no case of the
      switch handles. */
  datatype VectorOp =
    | Add | Subtract | Multiply | Divide
    | CrossProduct | DotProduct | Scale | Distance | Length | Normalize
    | Reflect | Project | Snap | Floor | Ceil | Modulo | Fraction | Absolute
    | Minimum | Maximum | Wrap | Sine | Cosine | Tangent
    | Refract | FaceForward | MultiplyAdd
    | Unlisted(ordinal: int)

  /** The constructor: an operation enum and three Vector operands; a Float
      "value" output followed by a Vector "vector" output; the "math"
      module. */
  function VectorMathPrototype(typeName: string): (n: Node)
    ensures n.typeName == typeName
    ensures |n.inputs| == 4 && |n.outputs| == 2
    ensures n.inputs[0] == NewSocket(IN_OPERATION, Enum)
    ensures n.inputs[1] == NewSocket(IN_VECTOR1, Vector)
    ensures n.inputs[2] == NewSocket(IN_VECTOR2, Vector)
    ensures n.inputs[3] == NewSocket(IN_VECTOR3, Vector)
    ensures n.outputs[0] == NewSocket(OUT_VALUE, Float)
    ensures n.outputs[1] == NewSocket(OUT_VECTOR, Vector)
    ensures n.dependencies == ["math"]
  {
    var n := NewNode(typeName);
    var n := AddInput(n, IN_OPERATION, Enum);
    var n := AddInput(n, IN_VECTOR1, Vector);
    var n := AddInput(n, IN_VECTOR2, Vector);
    var n := AddInput(n, IN_VECTOR3, Vector);
    var n := AddOutput(n, OUT_VALUE, Float);
    var n := AddOutput(n, OUT_VECTOR, Vector);
    AddModuleDependency(n, "math")
  }

  /** Every socket name of the layout resolves to its declared position. */
  lemma VectorMathLayoutLookups(typeName: string)
    ensures FindInputIndex(VectorMathPrototype(typeName), IN_OPERATION) == Some(0)
    ensures FindInputIndex(VectorMathPrototype(typeName), IN_VECTOR1) == Some(1)
    ensures FindInputIndex(VectorMathPrototype(typeName), IN_VECTOR2) == Some(2)
    ensures FindInputIndex(VectorMathPrototype(typeName), IN_VECTOR3) == Some(3)
    ensures FindOutputIndex(VectorMathPrototype(typeName), OUT_VALUE) == Some(0)
    ensures FindOutputIndex(VectorMathPrototype(typeName), OUT_VECTOR) == Some(1)
  {
    var n := VectorMathPrototype(typeName);
    assert DistinctNames(n.inputs);
    assert DistinctNames(n.outputs);
    FindSocketOfDeclared(n.inputs, 0);
    FindSocketOfDeclared(n.inputs, 1);
    FindSocketOfDeclared(n.inputs, 2);
    FindSocketOfDeclared(n.inputs, 3);
    FindSocketOfDeclared(n.outputs, 0);
    FindSocketOfDeclared(n.outputs, 1);
  }

  /** The right-hand side for each handled operation; nothing for the
      unhandled ones. */
  function VectorExpr(op: VectorOp, v1: string, v2: string, v3: string): Option<string> {
    match op
    case Add => Some(v1 + " +" + v2)
    case Subtract => Some(v1 + " -" + v2)
    case Multiply => Some(v1 + " *" + v2)
    case Divide => Some(v1 + " /" + v2)
    case CrossProduct => Some("cross(" + v1 + ", " + v2 + ")")
    case DotProduct => Some("dot(" + v1 + ", " + v2 + ")")
    case Scale => Some(v1 + " *" + v2)
    case Distance => Some("distance(" + v1 + ", " + v2 + ")")
    case Length => Some("length(" + v1 + ")")
    case Normalize => Some("normalize(" + v1 + ")")
    case Reflect => Some("reflect(" + v1 + ", " + v2 + ")")
    case Project => Some("project(" + v1 + ", " + v2 + ")")
    case Snap => Some("floor(" + v1 + " /" + v2 + ") *" + v2)
    case Floor => Some("floor(" + v1 + ")")
    case Ceil => Some("ceil(" + v1 + ")")
    case Modulo => Some("mod(" + v1 + ", " + v2 + ")")
    case Fraction => Some(v1 + " -floor(" + v1 + ")")
    case Absolute => Some("abs(" + v1 + ")")
    case Minimum => Some("min(" + v1 + ", " + v2 + ")")
    case Maximum => Some("max(" + v1 + ", " + v2 + ")")
    case Wrap => Some("wrap(" + v1 + ", " + v2 + ", " + v3 + ")")
    case Sine => Some("sin(" + v1 + ")")
    case Cosine => Some("cos(" + v1 + ")")
    case Tangent => Some("tan(" + v1 + ")")
    case Refract => Some("refract(" + v1 + ", " + v2 + ", " + v3 + ")")
    case FaceForward => Some("faceforward(" + v1 + ", " + v2 + ", " + v3 + ")")
    case MultiplyAdd => Some(v1 + " *" + v2 + " +" + v3)
    case Unlisted(_) => None
  }

  /** `DoEvaluate` on resolved texts: the declaration, " = ", the expression
      and ";\n", or `std::runtime_error` for an unhandled operation. */
  function EmitVectorMath(op: VectorOp, decl: string, v1: string, v2: string, v3: string): (r: Result<string>)
    ensures r.Err? <==> op.Unlisted?
    ensures r.Err? ==> r.error == UnknownOperation
    ensures r.Ok? ==>
      var e := VectorExpr(op, v1, v2, v3).value;
      && r.value == decl + " = " + e + ";\n"
      && |r.value| >= 2 && r.value[|r.value| - 2..] == ";\n"
  {
    match VectorExpr(op, v1, v2, v3)
    case None => Err(UnknownOperation)
    case Some(e) => Ok(decl + " = " + e + ";\n")
  }

  /** Multiply and Scale emit the same text. */
  lemma MultiplyIsScale(decl: string, v1: string, v2: string, v3: string)
    ensures EmitVectorMath(Multiply, decl, v1, v2, v3) == EmitVectorMath(Scale, decl, v1, v2, v3)
  {
  }

  /** Fraction is spelled out as the operand minus its floor rather than
      through `fract`. */
  lemma FractionIsOperandMinusFloor(decl: string, v1: string, v2: string, v3: string)
    ensures EmitVectorMath(Fraction, decl, v1, v2, v3) ==
            Ok(decl + " = " + v1 + " -" + VectorExpr(Floor, v1, v2, v3).value + ";\n")
  {
    assert " -floor(" == " -" + "floor(";
    var e := v1 + " -floor(" + v1 + ")";
    assert e == v1 + " -" + ("floor(" + v1 + ")");
    assert decl + " = " + e + ";\n" == decl + " = " + v1 + " -" + ("floor(" + v1 + ")") + ";\n";
  }

  /** `DoEvaluate` on an instance: operands resolved by name, the operation
      given as its constant value; the declaration is always that of the
      "value" output. */
  function EvaluateVectorMath(nodes: Arena, n: nat, render: (Socket, Value) -> string,
                              declare: (NodeInstance, nat) -> string, op: VectorOp): (r: Result<string>)
    requires Wf(nodes) && n < |nodes|
    ensures r.Err? ==> r.error == InvalidArgument || r.error == UnknownOperation
  {
    var x := nodes[n];
    match FindOutputIndex(x.proto, OUT_VALUE)
    case None => Err(InvalidArgument)
    case Some(out) =>
      match (GetInputNameOrValueByName(nodes, n, IN_VECTOR1, render),
             GetInputNameOrValueByName(nodes, n, IN_VECTOR2, render),
             GetInputNameOrValueByName(nodes, n, IN_VECTOR3, render))
      case (Ok(v1), Ok(v2), Ok(v3)) => EmitVectorMath(op, declare(x, out), v1, v2, v3)
      case _ => Err(InvalidArgument)
  }

  /** On an instance of the vector math prototype the lookups succeed, the
      result is declared through output 0 (the Float "value" output), never
      through output 1 (the Vector "vector" output), and only an unhandled
      operation fails. */
  lemma EvaluateVectorMathOnPrototype(nodes: Arena, n: nat, render: (Socket, Value) -> string,
                                      declare: (NodeInstance, nat) -> string, op: VectorOp)
    requires Wf(nodes) && n < |nodes| && nodes[n].proto == VectorMathPrototype(nodes[n].proto.typeName)
    ensures EvaluateVectorMath(nodes, n, render, declare, op) ==
            EmitVectorMath(op, declare(nodes[n], 0),
                           GetInputNameOrValue(nodes, n, 1, render).value,
                           GetInputNameOrValue(nodes, n, 2, render).value,
                           GetInputNameOrValue(nodes, n, 3, render).value)
    ensures EvaluateVectorMath(nodes, n, render, declare, op).Err? <==> op.Unlisted?
    ensures nodes[n].proto.outputs[0].ty == Float
  {
    VectorMathLayoutLookups(nodes[n].proto.typeName);
  }
}
