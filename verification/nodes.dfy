/** Node prototypes (`Node` in src/implementation/node.cpp): a type name, the
    ordered input and output socket declarations, and the module
    dependencies that generated code needs. Prototypes are built once and
    shared read-only by every instance. */
module Nodes {
  import opened Results
  import opened Values
  import opened Sockets

  datatype Node = Node(
    typeName: string,
    inputs: seq<Socket>,
    outputs: seq<Socket>,
    dependencies: seq<string>)

  /** `Node(type)`: no sockets, no dependencies. */
  function NewNode(typeName: string): (n: Node)
    ensures n.typeName == typeName
    ensures n.inputs == [] && n.outputs == [] && n.dependencies == []
  {
    Node(typeName, [], [], [])
  }

  /** Index of the first socket called `name`, if any (the `std::find_if`
      shared by the two index lookups). */
  function FindSocket(sockets: seq<Socket>, name: string): (r: Option<nat>)
    ensures r.Some? ==> r.value < |sockets| && sockets[r.value].name == name
    ensures r.Some? ==> forall k :: 0 <= k < r.value ==> sockets[k].name != name
    ensures r.None? <==> forall k :: 0 <= k < |sockets| ==> sockets[k].name != name
  {
    if |sockets| == 0 then None
    else if sockets[0].name == name then Some(0)
    else match FindSocket(sockets[1..], name)
      case None => None
      case Some(k) => Some(k + 1)
  }

  function FindInputIndex(node: Node, name: string): (r: Option<nat>)
    ensures r.Some? ==> r.value < |node.inputs| && node.inputs[r.value].name == name
    ensures r.Some? ==> forall k :: 0 <= k < r.value ==> node.inputs[k].name != name
    ensures r.None? <==> forall k :: 0 <= k < |node.inputs| ==> node.inputs[k].name != name
  {
    FindSocket(node.inputs, name)
  }

  function FindOutputIndex(node: Node, name: string): (r: Option<nat>)
    ensures r.Some? ==> r.value < |node.outputs| && node.outputs[r.value].name == name
    ensures r.Some? ==> forall k :: 0 <= k < r.value ==> node.outputs[k].name != name
    ensures r.None? <==> forall k :: 0 <= k < |node.outputs| ==> node.outputs[k].name != name
  {
    FindSocket(node.outputs, name)
  }

  /** Socket names that occur at most once in a declaration list. */
  predicate DistinctNames(sockets: seq<Socket>) {
    forall j, k :: 0 <= j < k < |sockets| ==> sockets[j].name != sockets[k].name
  }

  /** With distinct names, looking up a declared socket's name finds exactly
      that socket. */
  lemma FindSocketOfDeclared(sockets: seq<Socket>, k: nat)
    requires DistinctNames(sockets) && k < |sockets|
    ensures FindSocket(sockets, sockets[k].name) == Some(k)
  {
  }

  /** `GetInput`: the declaration at `index`, or nothing past the end. */
  function GetInput(node: Node, index: nat): (r: Option<Socket>)
    ensures r.None? <==> index >= |node.inputs|
    ensures r.Some? ==> r.value == node.inputs[index]
  {
    if index < |node.inputs| then Some(node.inputs[index]) else None
  }

  /** `GetOutput`: the declaration at `index`, or nothing past the end. */
  function GetOutput(node: Node, index: nat): (r: Option<Socket>)
    ensures r.None? <==> index >= |node.outputs|
    ensures r.Some? ==> r.value == node.outputs[index]
  {
    if index < |node.outputs| then Some(node.outputs[index]) else None
  }

  /** `AddOutput`: appends one output declaration; everything declared before
      keeps its position. */
  function AddOutput(node: Node, name: string, ty: DataType): (r: Node)
    ensures |r.outputs| == |node.outputs| + 1
    ensures r.outputs[..|node.outputs|] == node.outputs
    ensures r.outputs[|node.outputs|] == NewSocket(name, ty)
    ensures r.inputs == node.inputs && r.typeName == node.typeName
    ensures r.dependencies == node.dependencies
    ensures GetOutput(r, |node.outputs|) == Some(NewSocket(name, ty))
  {
    node.(outputs := node.outputs + [NewSocket(name, ty)])
  }

  /** Input declaration, as the node constructors use it: appends one input
      of the given name and kind (the default payload is not modelled). */
  function AddInput(node: Node, name: string, ty: DataType): (r: Node)
    ensures |r.inputs| == |node.inputs| + 1
    ensures r.inputs[..|node.inputs|] == node.inputs
    ensures r.inputs[|node.inputs|] == NewSocket(name, ty)
    ensures r.outputs == node.outputs && r.typeName == node.typeName
    ensures r.dependencies == node.dependencies
  {
    node.(inputs := node.inputs + [NewSocket(name, ty)])
  }

  /** Records an external module the generated code depends on. */
  function AddModuleDependency(node: Node, dep: string): (r: Node)
    ensures r.dependencies == node.dependencies + [dep]
    ensures r.inputs == node.inputs && r.outputs == node.outputs
  {
    node.(dependencies := node.dependencies + [dep])
  }
}
