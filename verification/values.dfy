/** Type-tagged optional payloads: `Value` and `Parameter` of
    src/implementation/parameter.cpp. `SocketValue` in
    src/implementation/socket.cpp is the same code over `SocketType`, which the
    node constructors use interchangeably with `DataType`; it is modelled by
    the same definitions.

    The source keeps the payload behind a `void*` and dispatches on the type
    tag to copy or delete it; here the payload is a sum type and "no payload"
    is `None`. */
module Values {
  import opened Results

  /** The data kinds a socket or value can carry. */
  datatype DataType = Boolean | Float | Color | Vector | Enum | String

  /** Native payloads. Floating-point components are kept as opaque literal
      text: the core never computes with them. */
  datatype Payload =
    | BoolPayload(b: bool)
    | FloatPayload(literal: string)
    | TriplePayload(x: string, y: string, z: string)
    | EnumPayload(ordinal: int)
    | StringPayload(s: string)

  /** Whether a payload is the native representation of a data kind. */
  predicate Fits(ty: DataType, p: Payload) {
    match ty
    case Boolean => p.BoolPayload?
    case Float => p.FloatPayload?
    case Color => p.TriplePayload?
    case Vector => p.TriplePayload?
    case Enum => p.EnumPayload?
    case String => p.StringPayload?
  }

  datatype Value = Value(ty: DataType, payload: Option<Payload>)

  /** `operator bool`: presence, not content. A value holds something exactly
      when dropping its payload would change it. */
  function HasValue(v: Value): (b: bool)
    ensures b <==> v != v.(payload := None)
  {
    v.payload.Some?
  }

  /** A value whose payload, when present, matches its type tag. */
  predicate WellTyped(v: Value) {
    v.payload.Some? ==> Fits(v.ty, v.payload.value)
  }

  /** `Value(DataType)`: a holder of the given type with nothing in it. */
  function NewValue(ty: DataType): (v: Value)
    ensures v.ty == ty && !HasValue(v) && WellTyped(v)
  {
    Value(ty, None)
  }

  /** `Clear`: drops the payload when there is one, keeps the type. */
  function Clear(v: Value): (r: Value)
    ensures r.ty == v.ty && !HasValue(r) && WellTyped(r)
  {
    if v.payload.None? then v
    else Value(v.ty, None)
  }

  /** Clearing twice is clearing once, and clearing an empty value changes
      nothing. */
  lemma ClearIdempotent(v: Value)
    ensures Clear(Clear(v)) == Clear(v)
    ensures !HasValue(v) ==> Clear(v) == v
  {
  }

  /** Copy assignment `target = source` for two distinct objects: clear the
      target, take the source's type, and if the source holds a payload read
      it and store a copy. Returns the new target and the (const) source. */
  function CopyAssign(target: Value, source: Value): (r: (Value, Value))
    ensures r.0.ty == source.ty
    ensures HasValue(r.0) <==> HasValue(source)
    ensures HasValue(source) ==> r.0.payload == source.payload
    ensures r.1 == source
    ensures WellTyped(source) ==> WellTyped(r.0)
  {
    var cleared := Clear(target);
    var retyped := Value(source.ty, cleared.payload);
    if !HasValue(source) then (retyped, source)
    else (Value(retyped.ty, Some(source.payload.value)), source)
  }

  /** Copy assignment does not depend on what the target held. */
  lemma CopyAssignForgetsTarget(t1: Value, t2: Value, source: Value)
    ensures CopyAssign(t1, source).0 == CopyAssign(t2, source).0 == source
  {
  }

  /** Move assignment `target = std::move(source)` for two distinct objects:
      the target takes the source's type and payload, the source keeps its
      type and loses the payload. Returns (new target, new source). */
  function MoveAssign(target: Value, source: Value): (r: (Value, Value))
    ensures r.0.ty == source.ty && r.0.payload == source.payload
    ensures r.1.ty == source.ty && !HasValue(r.1)
    ensures WellTyped(source) ==> WellTyped(r.0) && WellTyped(r.1)
  {
    var retyped := Value(source.ty, Clear(target).payload);
    if !HasValue(source) then (retyped, source)
    else (Value(retyped.ty, source.payload), Value(source.ty, None))
  }

  /** Copy construction: a fresh value of the source's type, then copy
      assignment. The copy equals the source. */
  function CopyConstruct(source: Value): (r: Value)
    ensures r == source
  {
    CopyAssign(NewValue(source.ty), source).0
  }

  /** Move construction: a fresh value of the source's type, then move
      assignment. Returns (new value, emptied source). */
  function MoveConstruct(source: Value): (r: (Value, Value))
    ensures r.0 == source
    ensures r.1 == Value(source.ty, None)
  {
    MoveAssign(NewValue(source.ty), source)
  }

  /** `v = v` as written: `Clear()` runs before the source is read, and the
      source is the same object, so the payload is gone by the time
      `if(!other)` looks at it. */
  function SelfCopyAssignAsWritten(v: Value): (r: Value)
    ensures r.ty == v.ty && !HasValue(r)
  {
    var cleared := Clear(v);
    var retyped := Value(cleared.ty, cleared.payload);
    if !HasValue(cleared) then retyped
    else cleared
  }

  /** Any value holding a payload loses it when assigned to itself. */
  lemma SelfCopyAssignLosesPayload(v: Value)
    requires HasValue(v)
    ensures SelfCopyAssignAsWritten(v) != v
  {
  }

  /** `v = std::move(v)` as written: move assignment also calls `Clear()`
      before `if(!other)` looks at the source, so a value moved into itself
      ends empty, where `MoveAssign` between two objects would hand the
      payload over. */
  function SelfMoveAssignAsWritten(v: Value): (r: Value)
    ensures r.ty == v.ty && !HasValue(r)
    ensures HasValue(v) ==> r != MoveAssign(v, v).0
  {
    var cleared := Clear(v);
    var retyped := Value(cleared.ty, cleared.payload);
    if !HasValue(cleared) then retyped
    else Value(retyped.ty, cleared.payload)
  }

  /** Copy assignment with a self-assignment guard: assigning a value to
      itself leaves it as it was; otherwise it is `CopyAssign`. */
  function CopyAssignGuarded(target: Value, source: Value, sameObject: bool): (r: Value)
    requires sameObject ==> target == source
    ensures r == source
  {
    if sameObject then target else CopyAssign(target, source).0
  }

  /** The numeric range bounds of a parameter, kept as opaque literal text. */
  type Bound = Option<string>

  /** An enum domain: names to ordinals. */
  type EnumSet = map<string, int>

  /** A named, typed parameter with a default value, optional bounds and an
      optional enum domain. */
  datatype Parameter = Parameter(
    name: string,
    ty: DataType,
    defaultValue: Value,
    min: Bound,
    max: Bound,
    enumSet: Option<EnumSet>)

  /** `Parameter(name, type)`: empty default of that type, no bounds, no enum
      domain. */
  function NewParameter(name: string, ty: DataType): (p: Parameter)
    ensures p.name == name && p.ty == ty
    ensures p.defaultValue == NewValue(ty)
    ensures p.enumSet.None? && p.min.None? && p.max.None?
  {
    Parameter(name, ty, NewValue(ty), None, None, None)
  }

  /** A fresh copy of an optional enum domain: absent iff the original is. */
  function CloneEnumSet(e: Option<EnumSet>): (r: Option<EnumSet>)
    ensures r.None? <==> e.None?
    ensures r.Some? ==> r.value == e.value
  {
    match e
    case None => None
    case Some(m) => Some(map k | k in m :: m[k])
  }

  /** Parameter copy construction: name and type first, then default, bounds
      and a cloned enum domain. */
  function CopyParameter(other: Parameter): (r: Parameter)
    ensures r == other
  {
    var p0 := NewParameter(other.name, other.ty);
    p0.(defaultValue := CopyAssign(p0.defaultValue, other.defaultValue).0,
           min := other.min,
           max := other.max,
           enumSet := CloneEnumSet(other.enumSet))
  }

  /** Parameter copy assignment between distinct objects: every field of the
      target is replaced from the source. */
  function AssignParameter(target: Parameter, other: Parameter): (r: Parameter)
    ensures r == other
  {
    target.(name := other.name,
            ty := other.ty,
            defaultValue := CopyAssign(target.defaultValue, other.defaultValue).0,
            min := other.min,
            max := other.max,
            enumSet := CloneEnumSet(other.enumSet))
  }

  /** `p = p` as written: the default value goes through the unguarded value
      self-assignment and comes out empty. */
  function SelfAssignParameterAsWritten(p: Parameter): (r: Parameter)
    ensures r.name == p.name && r.ty == p.ty && r.enumSet == p.enumSet
    ensures !HasValue(r.defaultValue)
  {
    p.(defaultValue := SelfCopyAssignAsWritten(p.defaultValue),
       enumSet := CloneEnumSet(p.enumSet))
  }
}
