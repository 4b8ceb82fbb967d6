/** Socket declarations (`Socket` in src/implementation/socket.cpp): the name,
    data kind, default value and optional enum domain of one input or output
    of a node prototype. */
module Sockets {
  import opened Results
  import opened Values

  datatype Socket = Socket(
    name: string,
    ty: DataType,
    defaultValue: Value,
    enumSet: Option<EnumSet>)

  /** `Socket(name, type)`: the default value is an empty holder of the
      socket's own type, and there is no enum domain. */
  function NewSocket(name: string, ty: DataType): (s: Socket)
    ensures s.name == name && s.ty == ty
    ensures s.defaultValue.ty == s.ty && !HasValue(s.defaultValue)
    ensures s.enumSet.None?
  {
    Socket(name, ty, NewValue(ty), None)
  }

  /** Socket copy construction: name and type first, then the default value by
      value copy assignment and a cloned enum domain. */
  function CopySocket(other: Socket): (r: Socket)
    ensures r == other
    ensures r.enumSet.None? <==> other.enumSet.None?
  {
    var s := NewSocket(other.name, other.ty);
    s.(defaultValue := CopyAssign(s.defaultValue, other.defaultValue).0,
       enumSet := CloneEnumSet(other.enumSet))
  }
}
