/** The node registry (src/implementation/node_registry.cpp): a finite map
    from type names to prototypes. */
module Registry {
  import opened Results
  import opened Nodes

  type NodeRegistry = map<string, Node>

  /** `GetNode`: the prototype registered under `name`, or nothing. */
  function GetNode(reg: NodeRegistry, name: string): (r: Option<Node>)
    ensures r.None? <==> name !in reg
    ensures r.Some? ==> r.value == reg[name]
  {
    if name in reg then Some(reg[name]) else None
  }

  /** `RegisterNode`: `name` now looks up `node` (replacing any earlier
      prototype of that name) and every other name looks up what it did
      before. */
  function RegisterNode(reg: NodeRegistry, name: string, node: Node): (r: NodeRegistry)
    ensures GetNode(r, name) == Some(node)
    ensures forall other :: other != name ==> GetNode(r, other) == GetNode(reg, other)
    ensures r.Keys == reg.Keys + {name}
  {
    reg[name := node]
  }

  /** An empty registry knows no names; a name never registered stays
      unknown after registering other names. */
  lemma {:induction false} UnregisteredStaysUnknown(names: seq<string>, nodes: seq<Node>, name: string)
    requires |names| == |nodes|
    requires forall k :: 0 <= k < |names| ==> names[k] != name
    ensures GetNode(RegisterAll(map[], names, nodes), name).None?
  {
    if |names| > 0 {
      UnregisteredStaysUnknown(names[..|names| - 1], nodes[..|nodes| - 1], name);
    }
  }

  /** Registers `names[k] -> nodes[k]` in order, later names winning. */
  function RegisterAll(reg: NodeRegistry, names: seq<string>, nodes: seq<Node>): NodeRegistry
    requires |names| == |nodes|
  {
    if |names| == 0 then reg
    else RegisterNode(RegisterAll(reg, names[..|names| - 1], nodes[..|nodes| - 1]),
                      names[|names| - 1], nodes[|nodes| - 1])
  }
}
