# Shader graph core, modelled in Dafny

This project models the core of `util_shadergraph`, a shader-node compiler.
Node prototypes declare ordered input and output sockets. A graph instantiates
prototypes as node instances and links an output of one instance to an input
of another. Code generation sorts the instances producers-first with Kahn's
algorithm, numbers them in that order and concatenates the GLSL text each
instance emits. Three emitters with real branching are modelled: scalar math,
vector math and clamp.

Modules, one per source unit:

- `Results`: `Option`, `Result` and the error kinds. `InvalidArgument` stands for
  `std::invalid_argument`, `OutOfRange` for `std::out_of_range` from `vector::at`,
  `CycleDetected` for the sort's `std::runtime_error`, and `UnknownOperation`
  for the vector math `default` case.
- `Text`: `std::to_string` on naturals, and the parser that inverts it.
- `Values`: `Value` and `Parameter`, from `parameter.cpp`. `SocketValue` in
  `socket.cpp` is the same code line for line over `SocketType`, so it is
  modelled by the same definitions. Its source lines are `socket.cpp:22-64`,
  against `parameter.cpp:14-56`.
- `Sockets`: `Socket`.
- `Nodes`: `Node` prototypes.
- `Registry`: `NodeRegistry`.
- `GraphNodes`: `NodeInstance`, its input and output slots, and the link
  operations.
- `Scheduler`: `topologicalSort`.
- `Graphs`: `Graph`, `AddNode` and `GenerateGLSL`.
- `MathNode`, `VectorMathNode` and `ClampNode`: the emitters.
- `Generation`: `Node::Evaluate` dispatching to the three emitters, and code
  generation with them plugged in.

Raw pointers become handles. Instances live in a sequence in insertion order,
and a node's handle is its position in that sequence. `InRef(node, input)`
stands for an `InputTest*` and `OutRef(node, output)` for an `OutputTest*`.

Link symmetry is an explicit predicate, `GraphNodes.Symmetric`:
- a linked input is listed by its producer;
- every input an output lists links back to that output;
- no output lists an input twice.

`Link` as written can break symmetry (see Findings), so the graph operations
ask only for `Graphs.GraphShaped`: every pointer is valid and the name table
indexes the node list. They keep symmetry when the graph had it.

The sort seeds its queue from an `unordered_map`, so the order of the seeded
in-degree-zero nodes is a nondeterministic choice (`:|`). Every property of
the sort holds for every such choice. After seeding, the queue is FIFO, as in
the source.

## Model

| member | source | states |
|---|---|---|
| `Values.HasValue` | src/implementation/parameter.cpp:56 | A value holds a payload exactly when dropping the payload would change it, that is, when it is not the empty holder of its type. |
| `Values.NewValue` | src/implementation/parameter.cpp:16 | A freshly constructed value of any type has that type and is empty. |
| `Values.Clear` | src/implementation/parameter.cpp:45-54 | Clearing keeps the type and leaves the value empty. |
| `Values.ClearIdempotent` | src/implementation/parameter.cpp:47-48 | Clearing twice is clearing once; clearing an empty value changes nothing. |
| `Values.CopyAssign` | src/implementation/parameter.cpp:19-33 | The target gets the source's type. It is empty iff the source is, and otherwise holds an equal payload. The source is unchanged and well-typedness carries over. |
| `Values.CopyAssignForgetsTarget` | src/implementation/parameter.cpp:21-22 | The result of copy assignment does not depend on the target's old contents and equals the source. |
| `Values.MoveAssign` | src/implementation/parameter.cpp:34-43 | The target gets the source's type and payload; the source keeps its type and is left empty. |
| `Values.CopyConstruct` | src/implementation/parameter.cpp:14 | Copy construction, a fresh value of the source's type followed by copy assignment, yields a value equal to the source. |
| `Values.MoveConstruct` | src/implementation/parameter.cpp:15 | Move construction yields the source's contents and leaves the source an empty value of its type. |
| `Values.SelfCopyAssignAsWritten` | src/implementation/parameter.cpp:19-24 | Self copy-assignment as written leaves the value empty, whatever it held. |
| `Values.SelfMoveAssignAsWritten` | src/implementation/parameter.cpp:34-43 | Self move-assignment as written also leaves the value empty, where a move between two objects hands the payload over. |
| `Values.SelfCopyAssignLosesPayload` | src/implementation/parameter.cpp:21-24 | Any value holding a payload is changed by assigning it to itself. |
| `Values.CopyAssignGuarded` | src/implementation/parameter.cpp:19-33 | Copy assignment with a self-assignment guard always yields the source, including when target and source are the same object. |
| `Values.NewParameter` | src/implementation/parameter.cpp:58 | A new parameter has the given name and type, an empty default of that type, no bounds and no enum set. |
| `Values.CloneEnumSet` | src/implementation/parameter.cpp:65 | The cloned enum set is absent iff the original is, and otherwise holds the same entries. |
| `Values.CopyParameter` | src/implementation/parameter.cpp:60-66 | A copy-constructed parameter reproduces name, type, default, min, max and enum set. |
| `Values.AssignParameter` | src/implementation/parameter.cpp:68-77 | Parameter assignment between distinct objects makes the target equal to the source. |
| `Values.SelfAssignParameterAsWritten` | src/implementation/parameter.cpp:68-77 | `p = p` keeps name, type and enum set but empties the default value. |
| `Sockets.NewSocket` | src/implementation/socket.cpp:66 | A new socket's default value has the socket's type and is empty; there is no enum set. |
| `Sockets.CopySocket` | src/implementation/socket.cpp:68-72 | A copied socket reproduces name, type, default value and enum set; the enum set is absent iff the original's is. |
| `Nodes.NewNode` | src/implementation/node.cpp:20 | A new prototype has its type name and no sockets or dependencies. |
| `Nodes.FindSocket` | src/implementation/node.cpp:34-35 | The result is the index of the first socket with that name, or none iff no socket has it. |
| `Nodes.FindInputIndex` | src/implementation/node.cpp:37-41 | The index of the first input with that name, or none iff no input has it. |
| `Nodes.FindOutputIndex` | src/implementation/node.cpp:32-36 | The index of the first output with that name, or none iff no output has it. |
| `Nodes.FindSocketOfDeclared` | src/implementation/node.cpp:37-41 | With distinct names, looking up a declared socket's name finds exactly that socket. |
| `Nodes.GetInput` | src/implementation/node.cpp:44 | Null iff the index is at least the input count; otherwise the declaration at that index. |
| `Nodes.GetOutput` | src/implementation/node.cpp:45 | Null iff the index is at least the output count; otherwise the declaration at that index. |
| `Nodes.AddOutput` | src/implementation/node.cpp:30 | Appends exactly one output with the given name and type. Earlier outputs and everything else are unchanged. |
| `Nodes.AddInput` | src/implementation/nodes/math.cpp:22-25 | Appends exactly one input with the given name and type. Earlier inputs and everything else are unchanged. |
| `Nodes.AddModuleDependency` | src/implementation/nodes/math.cpp:29 | Appends one module dependency and leaves the sockets unchanged. |
| `Registry.GetNode` | src/implementation/node_registry.cpp:21-27 | Null iff the name is not registered; otherwise the registered prototype. |
| `Registry.RegisterNode` | src/implementation/node_registry.cpp:28 | Afterwards the name looks up the new prototype, replacing any earlier one. Every other name looks up what it did before, and the key set grows by the name. |
| `Registry.UnregisteredStaysUnknown` | src/implementation/node_registry.cpp:23-25 | A name never registered is unknown after any sequence of registrations of other names. |
| `GraphNodes.NewInstance` | src/implementation/graph_node.cpp:28-39 | One input slot per prototype input and one output slot per output. Each slot's index is its position; inputs start unlinked with an empty value of the socket's type, outputs with no links. |
| `GraphNodes.RemoveFirst` | src/implementation/graph_node.cpp:57-59 | When the element is present, the result is the list with its FIRST occurrence cut out and the rest in order, one copy fewer. Otherwise the list is unchanged. A list without repeats no longer holds the element. |
| `GraphNodes.UnlinkInput` | src/implementation/graph_node.cpp:54-61 | The input ends unlinked. Its producer's list loses one entry for it; every other pointer and every slot's contents are unchanged. Pointer validity and backward links are preserved. |
| `GraphNodes.UnlinkPreservesSymmetric` | src/implementation/graph_node.cpp:57-60 | Unlinking an input keeps the links symmetric. |
| `GraphNodes.Attach` | src/implementation/graph_node.cpp:98-102 | The output's list gains the input at its end and the input points at the output; every other pointer is unchanged. |
| `GraphNodes.AttachUnlinkedPreservesSymmetric` | src/implementation/graph_node.cpp:98-102 | Attaching a previously unlinked input keeps the links symmetric. |
| `GraphNodes.DisconnectInput` | src/implementation/graph_node.cpp:49-62 | False and no change for an unknown input name or an unlinked input. Otherwise true, and the input is unlinked and removed from its producer's list. |
| `GraphNodes.DisconnectInputRemovesOneEntry` | src/implementation/graph_node.cpp:57-60 | A successful disconnect removes exactly one entry for the input from its producer's list and clears the link. |
| `GraphNodes.DisconnectEdge` | src/implementation/graph_node.cpp:63-78 | True iff both names resolve and this output lists the target input; then the target input is disconnected. Otherwise nothing changes. |
| `GraphNodes.DisconnectEdgeRemovesExactlyThatEdge` | src/implementation/graph_node.cpp:72-77 | With symmetric links it succeeds iff the edge exists. It removes exactly that edge and keeps the links symmetric. |
| `GraphNodes.CanLink` | src/implementation/graph_node.cpp:79-85 | False exactly when the target is the same instance; the socket names are not consulted. |
| `GraphNodes.LinkResolved` | src/implementation/graph_node.cpp:96-103 | Afterwards the input points at this output, and the output's list is its old list, less one entry for the input if it listed it and the input linked back, plus the input at the end. Every other input keeps its link. Every other output keeps its list, except the input's producer when this output listed the input. |
| `GraphNodes.Link` | src/implementation/graph_node.cpp:86-104 | False and no change on a self-link or an unknown output or input name; otherwise true, with the resolved link made. |
| `GraphNodes.LinkPreservesSymmetric` | src/implementation/graph_node.cpp:96-103 | If the target input is unlinked or already fed by this output, linking keeps the links symmetric. |
| `GraphNodes.LinkLeavesStaleEdge` | src/implementation/graph_node.cpp:96 | If the input was fed by a different output, that output still lists it afterwards and the links are no longer symmetric. |
| `GraphNodes.LinkDuplicatesStaleEntry` | src/implementation/graph_node.cpp:96-100 | An output listing an input that does not link back to it gets a second entry for that input when linked to it again. |
| `GraphNodes.LinkReplacingResolved` | src/implementation/graph_node.cpp:96-103 | The corrected link leaves the input pointing at this output, appended to its list. The input's old producer loses its first entry for the input. Every other input keeps its link and every other output its list. |
| `GraphNodes.LinkReplacing` | src/implementation/graph_node.cpp:86-104 | Corrected Link: same refusals as the source, and on success the input is first disconnected from whatever fed it. |
| `GraphNodes.LinkReplacingPreservesSymmetric` | src/implementation/graph_node.cpp:96-103 | The corrected link keeps the links symmetric from any symmetric state, and afterwards no other output lists the input. |
| `GraphNodes.LinkAgreesWithReplacing` | src/implementation/graph_node.cpp:96 | Where the input is unlinked or fed by this same output, the source's link and the corrected one give the same result. |
| `GraphNodes.GetOutputVarName` | src/implementation/graph_node.cpp:106 | The name reads back as (node index, output index): "var", the node index in decimal, "_", the output index in decimal. |
| `GraphNodes.VarNamesDistinct` | src/implementation/graph_node.cpp:106 | Distinct (node index, output index) pairs give distinct variable names. |
| `GraphNodes.GetOutputVarNameByName` | src/implementation/graph_node.cpp:107-113 | Invalid argument iff no output has that name; otherwise the variable name of the first output so named. |
| `GraphNodes.GetInputNameOrValue` | src/implementation/node.cpp:47-56 | Out of range iff the index is past the last input. A linked input yields the producer's variable name for the link's output index; an unlinked one yields the text of its value. |
| `GraphNodes.GetInputNameOrValueByName` | src/implementation/node.cpp:57-63 | Invalid argument iff no input has that name; otherwise the by-index result at the first matching index. |
| `Text.NatToString` | src/implementation/graph_node.cpp:106 | Non-empty, all decimal digits, and no leading zero unless the number is 0. |
| `Text.NatToStringRoundTrip` | src/implementation/graph_node.cpp:106 | The decimal text of a number reads back as that number. |
| `Scheduler.InDegrees` | src/implementation/graph.cpp:84-98 | Every node's in-degree is the number of links into it, counted once per link. |
| `Scheduler.SeedQueue` | src/implementation/graph.cpp:100-106 | The queue holds each node of in-degree zero exactly once, in some order, and nothing else. |
| `Scheduler.Release` | src/implementation/graph.cpp:115-121 | After outputting a node, the in-degrees count only links from nodes not yet output. The queue gains exactly the consumers that reached zero, behind the existing entries. |
| `Scheduler.Drain` | src/implementation/graph.cpp:108-122 | The output has no repeats and every producer of an output node precedes it. When the loop stops short, every remaining node still has a pending link from a remaining node. |
| `Scheduler.TopologicalSort` | src/implementation/graph.cpp:78-130 | It returns an order iff the links have no cycle. The order holds every node exactly once, each producer before its consumers; on a cycle it fails with the cycle error, for every seeding order. |
| `Scheduler.TopologicalOrderExcludesCycle` | src/implementation/graph.cpp:124-127 | A graph with a topological order has no cycle, so the sort can never throw on an acyclic graph. |
| `Scheduler.StallMeansCycle` | src/implementation/graph.cpp:124-127 | If fewer nodes come out than went in, the leftover nodes form a cycle witness. |
| `Scheduler.CompleteMeansOrder` | src/implementation/graph.cpp:109-129 | If every node came out, the output is a topological order. |
| `Scheduler.TwoNodeCycle` | src/implementation/graph.cpp:124-127 | A links to B plus B links to A is a cycle, so the sort throws. |
| `Graphs.NewGraph` | src/implementation/graph.cpp:55 | A new graph has the registry and no instances, and has symmetric links. |
| `Graphs.CandidateNamesDistinct` | src/implementation/graph.cpp:64 | Different numeric suffixes give different candidate names. |
| `Graphs.FreshName` | src/implementation/graph.cpp:61-70 | The loop ends with type + i for the smallest i ≥ 1 not already a key of the name table. |
| `Graphs.AppendKeepsGraphWf` | src/implementation/graph.cpp:72-74 | Appending an unlinked instance under an unused name keeps the links valid and the name table a bijection, and keeps symmetric links symmetric. |
| `Graphs.AddNode` | src/implementation/graph.cpp:56-76 | On any graph with valid pointers, symmetric or not. Unregistered type: nothing returned, graph unchanged. Otherwise a new instance of the prototype under the first free name type + i is appended and the name maps to the last index. Existing entries are unchanged, and symmetric links stay symmetric. |
| `Graphs.AddTwiceDistinctNames` | src/implementation/graph.cpp:64-66 | Two instances added for the same type get different names. |
| `Graphs.AdjacencyOf` | src/implementation/graph.cpp:88-98 | One list per instance; v is in u's list iff some output of u lists an input of v. |
| `Graphs.OutputConsumersMember` | src/implementation/graph.cpp:89-95 | A node appears among an instance's consumers iff one of its inputs is listed by one of the instance's outputs. |
| `Graphs.AdjacencyMeansFeeds` | src/implementation/graph.cpp:88-98 | v is in u's adjacency list iff some output of u lists an input of v. |
| `Graphs.LinkIsEdge` | src/implementation/graph.cpp:90-94 | Every link from P's output to C's input puts C in P's adjacency list. |
| `Graphs.AdjacencyClosed` | src/implementation/graph.cpp:91-95 | Every consumer in the adjacency lists is an instance of the graph. |
| `Graphs.EmitInOrder` | src/implementation/graph.cpp:203-210 | The loop that streams each node's code in sorted order gives the same result as the in-order fold `ConcatEval`, including stopping at the first failure. |
| `Graphs.ConcatEvalFirstError` | src/implementation/graph.cpp:206-208 | Concatenating the per-node texts fails iff some node's evaluation fails, and then with the error of the first one in order. |
| `Graphs.AssignIndices` | src/implementation/graph.cpp:198-200 | Each instance's node index becomes its position in the sorted order, dense 0..n-1; nothing else changes. |
| `Graphs.NumberedKeepsWf` | src/implementation/graph.cpp:198-200 | Renumbering keeps the pointers valid, the name table a bijection, and symmetric links symmetric. |
| `Graphs.GenerateGLSL` | src/implementation/graph.cpp:194-211 | On any graph with valid pointers, symmetric or not. If the adjacency built from the output lists has a cycle: the cycle error, with the graph unchanged. Otherwise the instances are numbered by their position in a topological order, and the result is the in-order concatenation of each instance's text, the first failure ending it. |
| `Graphs.ProducerNumberedFirst` | src/implementation/graph.cpp:196-200 | After numbering, a producer's node index is below each of its consumers'. |
| `Graphs.VarNamesUnique` | src/implementation/graph.cpp:198-200 | After numbering, no two outputs in the graph share a variable name. |
| `Graphs.StaleLinks` | src/implementation/graph_node.cpp:86-104 | Three instances B, C, D; link C to B's first input, then D to it, then B to C's second input. Afterwards only B's first input (from D) and C's second input (from B) are linked, yet the links are not symmetric and the adjacency has a cycle. |
| `Graphs.StaleLinksFailGeneration` | src/implementation/graph.cpp:124-127 | From an empty graph, three `AddNode`s and the links of `StaleLinks` make generation fail with the cycle error, although the input links have no cycle. |
| `Graphs.ReplacingLinks` | src/implementation/graph_node.cpp:86-104 | The same three links with the corrected link give the same input links, symmetric links and no cycle. |
| `Graphs.ChainAcyclic` | src/implementation/graph.cpp:78-130 | D feeding B feeding C, and nothing else, has no cycle. |
| `MathNode.MathPrototype` | src/implementation/nodes/math.cpp:19-30 | Inputs in order: operation (enum), clamp (Boolean), value1, value2, value3 (Float). One Float output, and module dependency "math". |
| `MathNode.MathLayoutLookups` | src/implementation/nodes/math.cpp:21-27 | Each socket name of the layout resolves to its declared position. |
| `MathNode.MathExprReadsOnlyOperands` | src/implementation/nodes/math.cpp:40-164 | Single-argument functions mention only value1, binary operations only value1 and value2, and an unhandled operation none. |
| `MathNode.SmoothMaxNegatesSmoothMin` | src/implementation/nodes/math.cpp:155-160 | SmoothMax renders as the negation of SmoothMin over negated value1 and value2. |
| `MathNode.LessThanIsSwappedGreaterThan` | src/implementation/nodes/math.cpp:98-103 | LessThan renders as GreaterThan with the operands exchanged. |
| `MathNode.EmitMath` | src/implementation/nodes/math.cpp:32-174 | The text starts with the declaration, " = ", the operation's expression and ";\n". The clamp post-statement follows exactly when the clamp input is not the constant false, reassigning the output variable through a ternary on the clamp text. |
| `MathNode.EvaluateMath` | src/implementation/nodes/math.cpp:35-38 | A failure of any name lookup is an invalid argument. |
| `MathNode.EvaluateMathOnPrototype` | src/implementation/nodes/math.cpp:32-174 | On a math instance every lookup succeeds. The text is the emitted text for output 0 and the resolved texts of inputs 2, 3, 4 (operands) and 1 (clamp). |
| `VectorMathNode.VectorMathPrototype` | src/implementation/nodes/vector_math.cpp:20-31 | An operation enum and three Vector inputs, then a Float "value" output and a Vector "vector" output, and module dependency "math". |
| `VectorMathNode.VectorMathLayoutLookups` | src/implementation/nodes/vector_math.cpp:22-28 | Each socket name of the layout resolves to its declared position. |
| `VectorMathNode.EmitVectorMath` | src/implementation/nodes/vector_math.cpp:33-129 | Fails, with the unknown-operation error, exactly for an operation outside the handled cases. Otherwise: the declaration, " = ", the expression, ending in ";\n". |
| `VectorMathNode.MultiplyIsScale` | src/implementation/nodes/vector_math.cpp:47-62 | Multiply and Scale emit identical text. |
| `VectorMathNode.FractionIsOperandMinusFloor` | src/implementation/nodes/vector_math.cpp:90-92 | Fraction renders as the operand minus the Floor expression of it. |
| `VectorMathNode.EvaluateVectorMath` | src/implementation/nodes/vector_math.cpp:36-40 | A failure is an invalid argument from a lookup or the unknown-operation error. |
| `VectorMathNode.EvaluateVectorMathOnPrototype` | src/implementation/nodes/vector_math.cpp:36 | On a vector math instance the result is always declared through output 0, the Float "value" output, never the "vector" output. Only an unhandled operation fails. |
| `ClampNode.ClampPrototype` | src/implementation/nodes/clamp.cpp:20-29 | A clamp-type enum, then Float value, min and max inputs, and one Float result output. |
| `ClampNode.ClampLayoutLookups` | src/implementation/nodes/clamp.cpp:22-28 | Each socket name of the layout resolves to its declared position. |
| `ClampNode.EmitClamp` | src/implementation/nodes/clamp.cpp:39-53 | The declaration comes first as its own statement, followed by the clamp statements. |
| `ClampNode.RangeIsGuardedMinMax` | src/implementation/nodes/clamp.cpp:46-51 | Range mode is `if(min > max)`, then the MinMax statement with the bounds exchanged, else the MinMax statement. |
| `ClampNode.MinMaxAssignsOutput` | src/implementation/nodes/clamp.cpp:43-45 | MinMax mode is one assignment, and it targets the output variable. |
| `ClampNode.EvaluateClamp` | src/implementation/nodes/clamp.cpp:34-40 | A failure of any name lookup is an invalid argument. |
| `ClampNode.EvaluateClampOnPrototype` | src/implementation/nodes/clamp.cpp:31-54 | On a clamp instance every lookup succeeds, and every assignment targets the variable of output 0, the "result" output. |
| `Generation.EvaluateInstance` | src/implementation/node.cpp:24-29 | `Evaluate` is exactly what the instance's emitter's `DoEvaluate` returns: the math, vector math or clamp evaluation by layout, and the other classes' own evaluation otherwise. A dangling handle or pointer is an invalid argument. |
| `Generation.EvaluateAsMath` | src/implementation/nodes/math.cpp:32-174 | On a math instance: the math text over output 0, operands from inputs 2, 3 and 4, clamp text from input 1. It never fails. |
| `Generation.EvaluateAsVectorMath` | src/implementation/nodes/vector_math.cpp:33-129 | On a vector math instance: the vector math text declared through output 0 over inputs 1, 2 and 3. It fails, with the unknown-operation error, exactly on an unhandled operation. |
| `Generation.EvaluateAsClamp` | src/implementation/nodes/clamp.cpp:31-54 | On a clamp instance: the clamp text over output 0 and inputs 1, 2 and 3. It never fails. |
| `Generation.EvaluateModelledFails` | src/implementation/nodes/vector_math.cpp:123-124 | On an instance of the three layouts, evaluation fails iff it is a vector math instance with an unhandled operation, and then with the unknown-operation error. |
| `Generation.GenerateWithEmitters` | src/implementation/graph.cpp:194-211 | `GenerateGLSL` with the three emitters as the evaluation. A cycle gives the cycle error. Otherwise the result is the in-order concatenation of the emitters' texts. When every instance is a math, vector math or clamp instance, generation fails iff some vector math instance has an unhandled operation, and then with that error. |
| `Generation.GenerationFailures` | src/implementation/graph.cpp:203-210 | Over any topological numbering of such a graph, the concatenation fails iff some instance's vector math operation is unhandled, with the unknown-operation error. |

## Left out

- Value-to-text conversion is a parameter, `render`. The bodies of
  `InputTest::GetValue<std::string>` and `udm::convert` are not part of this
  model.
- `GetGlslOutputDeclaration` is a parameter, `declare`. Its body is not part of
  this model.
- `GetConstantInputValue` is not modelled. Its body is not part of this
  model. The emitters take the constant operation, clamp flag and clamp type
  as arguments, and `Generation.Emitters` carries one reader per constant.
- The emitters dereference the optional from `GetConstantInputValue` without
  checking it (`math.cpp:39`, `vector_math.cpp:40`, `clamp.cpp:37`). The model
  assumes it is present. The case where it is empty is not modelled, since the
  function's body is not part of this model.
- The `GraphNode` wrapper that the emitters call through is not part of this
  model. Its methods are taken to forward to the `Node` and `NodeInstance`
  methods modelled here.
- The socket-name constants (`IN_VALUE1`, `OUT_RESULT`, ...) are defined in
  headers that are not part of this model. They are written as lower-case
  strings, so only their distinctness matters.
- The enum ordinals of `Operation` and `ClampType` are not part of this model.
  Each enum has an `Unlisted` case for a value no `case` handles.
- `AddInput` default payloads such as `0.5f` are not modelled, and neither are
  `AddSocketEnum` enum domains. Inputs are declared with an empty default;
  float text is opaque.
- `Graphs.GenerateGLSL` takes the per-instance evaluation as the parameter
  `evaluate`. `Generation.GenerateWithEmitters` passes the dispatcher
  `Generation.EvaluateInstance` for it.
- The node class behind a prototype is not represented. `Generation` picks the
  emitter by the prototype's socket layout; the three layouts are distinct.
  Other node classes' `DoEvaluate` is the parameter `other`.
- `Generation.EvaluateInstance` answers an invalid argument for a handle past
  the node list or a list with dangling pointers. The source passes a
  reference, so it has no such case. Code generation hands it only positions
  of the sorted order over a node list whose pointers are valid.
- `Graph::Test`, `Graph::DebugPrint` and `FindInvalidLinks` are left out: console
  output, and an empty stub.
- `NodeInstance::ClearInputValue` is left out; it is not part of the linking
  core.
- Memory management is left out: `shared_ptr` ownership, the `void*` payload
  storage, and instance destruction. Nodes are never removed in this code, so
  positions are stable handles.
- `GraphNodes.UnlinkInput` clears the link even when the producer does not
  list the input. There the source's `assert` fails, and a release build
  erases `end()`, which is undefined behaviour (`graph_node.cpp:57-59`).
  Symmetric links rule that case out.
- The types of `Parameter::min` and `Parameter::max` are declared in a header
  that is not part of this model. The model takes them as optional literal
  text, not `Value`s, so self-assignment of a `Parameter` keeps them.
- Links between instances of different graphs are left out. All handles point
  into one node list.
- `Graphs.AssignIndices` does not model the 32-bit wrap-around of the `uint32_t`
  counter. That wrap needs more than 2^32 instances.
- `Graphs.GenerateGLSL` returns the sorted order as an extra result, so that its
  contract can name the order it numbered by. The source keeps the order
  internal.
- The other node emitters (emission, hsv, gamma, mix, map_range, ...) are left
  out. They are straight-line templates over helpers whose bodies are not part
  of this model.
- The model starts a new instance's `nodeIndex` at 0. The header that
  declares `nodeIndex` is not part of this model. Only code generation
  (`graph.cpp:200`) gives the index a meaning.
- `Graph` holds a reference to its registry, so the source sees later
  `RegisterNode` calls. The model copies the registry into the graph when it
  is created. A registration after that is not visible to `AddNode`.

## Findings

| source | as written | input that shows it | evidently intended | confidence | as-written member | corrected member |
|---|---|---|---|---|---|---|
| src/implementation/graph_node.cpp:96 | `Link` breaks a prior edge only if it came from the same output. It calls `Disconnect(outputName, linkTarget, inputName)`, which looks only in this output's list. | Input C.x linked from A.out; then `B.Link("out", C, "x")`. C.x now points at B.out, yet A.out still lists C.x. The stale entry reaches the sort: `Graphs.StaleLinksFailGeneration` gives a cycle error on a graph whose input links have no cycle. | An input has at most one producer and the last link wins, so the prior edge from any output is broken first. | medium; not executed | `GraphNodes.LinkLeavesStaleEdge` | `GraphNodes.LinkReplacingPreservesSymmetric` |
| src/implementation/parameter.cpp:19-24 | Copy assignment calls `Clear()` before reading `other`, with no self-assignment check. `v = v` deletes the payload and then sees an empty source. The same code is at `socket.cpp:27-32`. Move assignment (`parameter.cpp:34-43`) clears first too, so `v = std::move(v)` also ends empty (`Values.SelfMoveAssignAsWritten`). | A Float `Value` holding "1.0" assigned to itself ends empty. | Self-assignment leaves the value unchanged. | high; not executed | `Values.SelfCopyAssignLosesPayload` | `Values.CopyAssignGuarded` |
