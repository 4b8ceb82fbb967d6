/** Node instances and the link structure between them
    (src/implementation/graph_node.cpp, plus the input resolution of
    src/implementation/node.cpp).

    The source links sockets by raw pointers: an input points at the output
    producing it, an output keeps a list of pointers to the inputs consuming
    it. Here every instance lives at a position of a sequence (the graph's
    node list) and a pointer becomes a handle: `InRef(node, input)` for an
    `InputTest*`, `OutRef(node, output)` for an `OutputTest*`. Identity of
    instances (`&linkTarget == this`) is equality of positions. */
module GraphNodes {
  import opened Results
  import opened Text
  import opened Values
  import opened Sockets
  import opened Nodes

  datatype InRef = InRef(node: nat, input: nat)
  datatype OutRef = OutRef(node: nat, output: nat)

  /** `InputTest`: its own position, a value of the socket's type, and at most
      one incoming link. */
  datatype InputSlot = InputSlot(index: nat, value: Value, link: Option<OutRef>)

  /** `OutputTest`: its own position and the list of consuming inputs. */
  datatype OutputSlot = OutputSlot(index: nat, links: seq<InRef>)

  /** `NodeInstance`: a prototype bound into a graph under a display name,
      with the index assigned by the last code generation. */
  datatype NodeInstance = NodeInstance(
    proto: Node,
    name: string,
    nodeIndex: nat,
    inputs: seq<InputSlot>,
    outputs: seq<OutputSlot>)

  /** The node list the handles point into. */
  type Arena = seq<NodeInstance>

  // ---------------------------------------------------------------------
  // Construction

  /** One slot per declared socket, in declaration order, each knowing its
      own position; inputs start unlinked and empty, outputs with no links. */
  predicate InstanceWf(x: NodeInstance) {
    && |x.inputs| == |x.proto.inputs|
    && |x.outputs| == |x.proto.outputs|
    && (forall i :: 0 <= i < |x.inputs| ==> x.inputs[i].index == i)
    && (forall o :: 0 <= o < |x.outputs| ==> x.outputs[o].index == o)
  }

  /** The `NodeInstance` constructor. The initial `nodeIndex` is 0 until code
      generation assigns one. */
  function NewInstance(proto: Node, name: string): (x: NodeInstance)
    ensures InstanceWf(x)
    ensures x.proto == proto && x.name == name
    ensures forall i :: 0 <= i < |x.inputs| ==>
              x.inputs[i].link.None? && x.inputs[i].value == NewValue(proto.inputs[i].ty)
    ensures forall o :: 0 <= o < |x.outputs| ==> x.outputs[o].links == []
  {
    NodeInstance(
      proto, name, 0,
      seq(|proto.inputs|, i requires 0 <= i < |proto.inputs| =>
        InputSlot(i, NewValue(proto.inputs[i].ty), None)),
      seq(|proto.outputs|, o requires 0 <= o < |proto.outputs| => OutputSlot(o, [])))
  }

  // ---------------------------------------------------------------------
  // Handles and the link invariants

  predicate ValidIn(nodes: Arena, r: InRef) {
    r.node < |nodes| && r.input < |nodes[r.node].inputs|
  }

  predicate ValidOut(nodes: Arena, r: OutRef) {
    r.node < |nodes| && r.output < |nodes[r.node].outputs|
  }

  function InLinkOf(nodes: Arena, r: InRef): Option<OutRef>
    requires ValidIn(nodes, r)
  {
    nodes[r.node].inputs[r.input].link
  }

  function OutLinksOf(nodes: Arena, r: OutRef): seq<InRef>
    requires ValidOut(nodes, r)
  {
    nodes[r.node].outputs[r.output].links
  }

  /** Every instance is well formed and every pointer points at an existing
      socket of an instance in the list. */
  ghost predicate Wf(nodes: Arena) {
    && (forall n :: 0 <= n < |nodes| ==> InstanceWf(nodes[n]))
    && (forall r: InRef :: ValidIn(nodes, r) && InLinkOf(nodes, r).Some? ==>
          ValidOut(nodes, InLinkOf(nodes, r).value))
    && (forall o: OutRef, r: InRef :: ValidOut(nodes, o) && r in OutLinksOf(nodes, o) ==>
          ValidIn(nodes, r))
  }

  /** `Wf` decided by walking the sockets, for code that has to test it
      before it may index through the links. */
  function CheckWf(nodes: Arena): (b: bool)
    ensures b <==> Wf(nodes)
  {
    && (forall n :: 0 <= n < |nodes| ==> InstanceWf(nodes[n]))
    && (forall n, i :: 0 <= n < |nodes| && 0 <= i < |nodes[n].inputs| ==>
          var r := InRef(n, i);
          InLinkOf(nodes, r).Some? ==> ValidOut(nodes, InLinkOf(nodes, r).value))
    && (forall n, o, k ::
          0 <= n < |nodes| && 0 <= o < |nodes[n].outputs| && 0 <= k < |OutLinksOf(nodes, OutRef(n, o))| ==>
          ValidIn(nodes, OutLinksOf(nodes, OutRef(n, o))[k]))
  }

  /** Backward implies forward: a linked input is listed by its producer. */
  ghost predicate BackLinked(nodes: Arena) {
    forall r: InRef ::
      (ValidIn(nodes, r) && InLinkOf(nodes, r).Some? && ValidOut(nodes, InLinkOf(nodes, r).value)) ==>
        r in OutLinksOf(nodes, InLinkOf(nodes, r).value)
  }

  /** Forward implies backward: every input an output lists links back to it. */
  ghost predicate ForwardLinked(nodes: Arena) {
    forall o: OutRef, r: InRef :: ValidOut(nodes, o) && r in OutLinksOf(nodes, o) ==>
      ValidIn(nodes, r) && InLinkOf(nodes, r) == Some(o)
  }

  /** No input listed twice. */
  ghost predicate NoRepeats(s: seq<InRef>) {
    forall x :: multiset(s)[x] <= 1
  }

  ghost predicate NoDuplicateLinks(nodes: Arena) {
    forall o: OutRef :: ValidOut(nodes, o) ==> NoRepeats(OutLinksOf(nodes, o))
  }

  /** Link symmetry: the two directions agree and no output lists an input
      twice. */
  ghost predicate Symmetric(nodes: Arena) {
    BackLinked(nodes) && ForwardLinked(nodes) && NoDuplicateLinks(nodes)
  }

  /** Two node lists that differ at most in their links. */
  predicate SameSlots(x: NodeInstance, y: NodeInstance) {
    && x.proto == y.proto && x.name == y.name && x.nodeIndex == y.nodeIndex
    && |x.inputs| == |y.inputs| && |x.outputs| == |y.outputs|
    && (forall i :: 0 <= i < |x.inputs| ==>
          x.inputs[i].index == y.inputs[i].index && x.inputs[i].value == y.inputs[i].value)
    && (forall o :: 0 <= o < |x.outputs| ==> x.outputs[o].index == y.outputs[o].index)
  }

  predicate SameSkeleton(a: Arena, b: Arena) {
    |a| == |b| && forall n :: 0 <= n < |a| ==> SameSlots(a[n], b[n])
  }

  lemma SameSkeletonTransitive(a: Arena, b: Arena, c: Arena)
    requires SameSkeleton(a, b) && SameSkeleton(b, c)
    ensures SameSkeleton(a, c)
    ensures forall r: InRef :: ValidIn(a, r) <==> ValidIn(c, r)
    ensures forall o: OutRef :: ValidOut(a, o) <==> ValidOut(c, o)
  {
    forall n | 0 <= n < |a|
      ensures SameSlots(a[n], c[n])
    {
      assert SameSlots(a[n], b[n]) && SameSlots(b[n], c[n]);
    }
  }

  // ---------------------------------------------------------------------
  // Primitive updates of one pointer or one pointer list

  function SetInLink(nodes: Arena, r: InRef, l: Option<OutRef>): (res: Arena)
    requires ValidIn(nodes, r)
    ensures SameSkeleton(nodes, res)
    ensures forall k :: 0 <= k < |nodes| && k != r.node ==> res[k] == nodes[k]
    ensures forall r': InRef :: ValidIn(res, r') <==> ValidIn(nodes, r')
    ensures forall o: OutRef :: ValidOut(res, o) <==> ValidOut(nodes, o)
    ensures forall r': InRef :: ValidIn(nodes, r') ==>
              InLinkOf(res, r') == if r' == r then l else InLinkOf(nodes, r')
    ensures forall o: OutRef :: ValidOut(nodes, o) ==> OutLinksOf(res, o) == OutLinksOf(nodes, o)
    ensures Wf(nodes) && (l.None? || ValidOut(nodes, l.value)) ==> Wf(res)
  {
    var x := nodes[r.node];
    var slot := x.inputs[r.input];
    nodes[r.node := x.(inputs := x.inputs[r.input := slot.(link := l)])]
  }

  function SetOutLinks(nodes: Arena, o: OutRef, ls: seq<InRef>): (res: Arena)
    requires ValidOut(nodes, o)
    ensures SameSkeleton(nodes, res)
    ensures forall k :: 0 <= k < |nodes| && k != o.node ==> res[k] == nodes[k]
    ensures forall r': InRef :: ValidIn(res, r') <==> ValidIn(nodes, r')
    ensures forall o': OutRef :: ValidOut(res, o') <==> ValidOut(nodes, o')
    ensures forall r': InRef :: ValidIn(nodes, r') ==> InLinkOf(res, r') == InLinkOf(nodes, r')
    ensures forall o': OutRef :: ValidOut(nodes, o') ==>
              OutLinksOf(res, o') == if o' == o then ls else OutLinksOf(nodes, o')
    ensures Wf(nodes) && (forall r' :: r' in ls ==> ValidIn(nodes, r')) ==> Wf(res)
  {
    var x := nodes[o.node];
    var slot := x.outputs[o.output];
    nodes[o.node := x.(outputs := x.outputs[o.output := slot.(links := ls)])]
  }

  /** Erases the first occurrence of `x` (`std::find` then `erase`). */
  function RemoveFirst(s: seq<InRef>, x: InRef): (r: seq<InRef>)
    ensures x in s ==> multiset(r) == multiset(s) - multiset{x}
    ensures x !in s ==> r == s
    ensures forall y :: y in r ==> y in s
    ensures forall y :: y != x && y in s ==> y in r
    ensures NoRepeats(s) ==> NoRepeats(r) && x !in r
    ensures x in s ==> exists k :: 0 <= k < |s| && s[k] == x && x !in s[..k] && r == s[..k] + s[k + 1..]
  {
    var r := EraseFirst(s, x);
    ErasedMembers(s, x, r);
    EraseFirstIsFirst(s, x);
    r
  }

  /** The recursion behind `RemoveFirst`, with only its count contract. */
  function EraseFirst(s: seq<InRef>, x: InRef): (r: seq<InRef>)
    ensures x in s ==> multiset(r) == multiset(s) - multiset{x}
    ensures x !in s ==> r == s
  {
    if |s| == 0 then s
    else if s[0] == x then
      assert s == [x] + s[1..];
      s[1..]
    else
      var rest := EraseFirst(s[1..], x);
      assert s == [s[0]] + s[1..];
      [s[0]] + rest
  }

  /** The copy erased is the first one; the others keep their order. */
  lemma EraseFirstIsFirst(s: seq<InRef>, x: InRef)
    ensures x in s ==> exists k :: 0 <= k < |s| && s[k] == x && x !in s[..k] &&
                                   EraseFirst(s, x) == s[..k] + s[k + 1..]
  {
    if x in s {
      var k := ErasedPosition(s, x);
    }
  }

  /** The position of the erased copy, found by the same recursion. */
  lemma {:induction false} ErasedPosition(s: seq<InRef>, x: InRef) returns (k: nat)
    requires x in s
    ensures k < |s| && s[k] == x && x !in s[..k]
    ensures EraseFirst(s, x) == s[..k] + s[k + 1..]
  {
    if s[0] == x {
      k := 0;
      assert s[..0] == [];
    } else {
      assert x in s[1..] by { assert s == [s[0]] + s[1..]; }
      var j := ErasedPosition(s[1..], x);
      k := ErasedPositionStep(s, x, j);
    }
  }

  /** One step of `ErasedPosition`: a position in the tail, shifted by the
      kept head. */
  lemma ErasedPositionStep(s: seq<InRef>, x: InRef, j: nat) returns (k: nat)
    requires |s| > 0 && s[0] != x
    requires j < |s[1..]| && s[1..][j] == x && x !in s[1..][..j]
    requires EraseFirst(s[1..], x) == s[1..][..j] + s[1..][j + 1..]
    ensures k < |s| && s[k] == x && x !in s[..k]
    ensures EraseFirst(s, x) == s[..k] + s[k + 1..]
  {
    k := j + 1;
    ConsSplit(s, j);
    assert EraseFirst(s, x) == [s[0]] + EraseFirst(s[1..], x);
  }

  /** Removing position `j` of the tail is removing position `j + 1`. */
  lemma ConsSplit(s: seq<InRef>, j: nat)
    requires j + 1 < |s|
    ensures [s[0]] + (s[1..][..j] + s[1..][j + 1..]) == s[..j + 1] + s[j + 2..]
    ensures s[..j + 1] == [s[0]] + s[1..][..j]
  {
    assert s[..j + 1] == [s[0]] + s[1..][..j];
    assert s[j + 2..] == s[1..][j + 1..];
  }

  /** What one fewer copy of `x` means for membership and repeats. */
  lemma ErasedMembers(s: seq<InRef>, x: InRef, r: seq<InRef>)
    requires x in s ==> multiset(r) == multiset(s) - multiset{x}
    requires x !in s ==> r == s
    ensures forall y :: y in r ==> y in s
    ensures forall y :: y != x && y in s ==> y in r
    ensures NoRepeats(s) ==> NoRepeats(r) && x !in r
  {
    forall y | y in r
      ensures y in s
    {
      assert multiset(r)[y] > 0;
    }
    forall y | y != x && y in s
      ensures y in r
    {
      assert multiset(s)[y] > 0;
      if x in s {
        assert multiset(r)[y] == multiset(s)[y];
      }
    }
    if NoRepeats(s) && x in s {
      assert multiset(s)[x] == 1;
    }
  }

  // ---------------------------------------------------------------------
  // Unlinking and linking one resolved input

  /** The body of `Disconnect(inputName)` once the name is resolved: if the
      input is linked, erase it from its producer's list and clear its link.
      The source asserts the producer lists it; when it does not (which
      `BackLinked` rules out) only the link is cleared. */
  function UnlinkInput(nodes: Arena, r: InRef): (res: Arena)
    requires Wf(nodes) && ValidIn(nodes, r)
    ensures Wf(res) && SameSkeleton(nodes, res)
    ensures InLinkOf(res, r).None?
    ensures InLinkOf(nodes, r).None? ==> res == nodes
    ensures forall r': InRef :: ValidIn(nodes, r') && r' != r ==> InLinkOf(res, r') == InLinkOf(nodes, r')
    ensures forall o: OutRef :: ValidOut(nodes, o) ==>
              OutLinksOf(res, o) ==
                if InLinkOf(nodes, r) == Some(o) then RemoveFirst(OutLinksOf(nodes, o), r)
                else OutLinksOf(nodes, o)
    ensures BackLinked(nodes) ==> BackLinked(res)
  {
    match InLinkOf(nodes, r)
    case None => nodes
    case Some(o) =>
      UnlinkLinkedKeepsLinks(nodes, r, o);
      UnlinkLinkedFrame(nodes, r, o);
      SetInLink(SetOutLinks(nodes, o, RemoveFirst(OutLinksOf(nodes, o), r)), r, None)
  }

  /** The two pointer writes of an unlink change only the input's link and
      the producer's list. */
  lemma UnlinkLinkedFrame(nodes: Arena, r: InRef, o: OutRef)
    requires ValidIn(nodes, r) && ValidOut(nodes, o)
    ensures var res := SetInLink(SetOutLinks(nodes, o, RemoveFirst(OutLinksOf(nodes, o), r)), r, None);
      && SameSkeleton(nodes, res)
      && (forall r': InRef :: ValidIn(res, r') <==> ValidIn(nodes, r'))
      && (forall o': OutRef :: ValidOut(res, o') <==> ValidOut(nodes, o'))
      && InLinkOf(res, r).None?
      && (forall r': InRef :: ValidIn(nodes, r') && r' != r ==> InLinkOf(res, r') == InLinkOf(nodes, r'))
      && (forall o': OutRef :: ValidOut(nodes, o') ==>
            OutLinksOf(res, o') == if o' == o then RemoveFirst(OutLinksOf(nodes, o), r) else OutLinksOf(nodes, o'))
  {
    var n1 := SetOutLinks(nodes, o, RemoveFirst(OutLinksOf(nodes, o), r));
    SameSkeletonTransitive(nodes, n1, SetInLink(n1, r, None));
  }

  /** The two pointer writes of an unlink keep every pointer valid, and keep
      every linked input listed by its producer. */
  lemma UnlinkLinkedKeepsLinks(nodes: Arena, r: InRef, o: OutRef)
    requires Wf(nodes) && ValidIn(nodes, r) && InLinkOf(nodes, r) == Some(o)
    ensures ValidOut(nodes, o)
    ensures var res := SetInLink(SetOutLinks(nodes, o, RemoveFirst(OutLinksOf(nodes, o), r)), r, None);
      Wf(res) && (BackLinked(nodes) ==> BackLinked(res))
  {
    var ls := RemoveFirst(OutLinksOf(nodes, o), r);
    var n1 := SetOutLinks(nodes, o, ls);
    assert Wf(n1);
    var res := SetInLink(n1, r, None);
    if BackLinked(nodes) {
      forall r': InRef | ValidIn(res, r') && InLinkOf(res, r').Some? && ValidOut(res, InLinkOf(res, r').value)
        ensures r' in OutLinksOf(res, InLinkOf(res, r').value)
      {
        var p := InLinkOf(nodes, r').value;
        assert r' != r && InLinkOf(res, r') == Some(p);
        assert r' in OutLinksOf(nodes, p);
      }
    }
  }

  lemma UnlinkPreservesSymmetric(nodes: Arena, r: InRef)
    requires Wf(nodes) && ValidIn(nodes, r) && Symmetric(nodes)
    ensures Symmetric(UnlinkInput(nodes, r))
  {
    var res := UnlinkInput(nodes, r);
    forall o: OutRef, r': InRef | ValidOut(res, o) && r' in OutLinksOf(res, o)
      ensures ValidIn(res, r') && InLinkOf(res, r') == Some(o)
    {
    }
  }

  /** The two pointer writes of a successful `Link`: append the input to the
      output's list and point the input at the output. */
  function Attach(nodes: Arena, o: OutRef, r: InRef): (res: Arena)
    requires Wf(nodes) && ValidOut(nodes, o) && ValidIn(nodes, r)
    ensures Wf(res) && SameSkeleton(nodes, res)
    ensures forall r': InRef :: ValidIn(res, r') <==> ValidIn(nodes, r')
    ensures forall o': OutRef :: ValidOut(res, o') <==> ValidOut(nodes, o')
    ensures InLinkOf(res, r) == Some(o)
    ensures OutLinksOf(res, o) == OutLinksOf(nodes, o) + [r]
    ensures forall r': InRef :: ValidIn(nodes, r') && r' != r ==> InLinkOf(res, r') == InLinkOf(nodes, r')
    ensures forall o': OutRef :: ValidOut(nodes, o') && o' != o ==> OutLinksOf(res, o') == OutLinksOf(nodes, o')
    ensures BackLinked(nodes) ==> BackLinked(res)
  {
    AttachKeepsLinks(nodes, o, r);
    AttachFrame(nodes, o, r);
    SetInLink(SetOutLinks(nodes, o, OutLinksOf(nodes, o) + [r]), r, Some(o))
  }

  /** The two pointer writes of a link keep every pointer valid, and keep
      every linked input listed by its producer. */
  lemma AttachKeepsLinks(nodes: Arena, o: OutRef, r: InRef)
    requires Wf(nodes) && ValidOut(nodes, o) && ValidIn(nodes, r)
    ensures var res := SetInLink(SetOutLinks(nodes, o, OutLinksOf(nodes, o) + [r]), r, Some(o));
      Wf(res) && (BackLinked(nodes) ==> BackLinked(res))
  {
    var ls := OutLinksOf(nodes, o) + [r];
    assert forall r' :: r' in ls ==> ValidIn(nodes, r');
    var n1 := SetOutLinks(nodes, o, ls);
    assert Wf(n1) && ValidOut(n1, o);
    var res := SetInLink(n1, r, Some(o));
    if BackLinked(nodes) {
      forall r': InRef | ValidIn(res, r') && InLinkOf(res, r').Some? && ValidOut(res, InLinkOf(res, r').value)
        ensures r' in OutLinksOf(res, InLinkOf(res, r').value)
      {
        if r' != r {
          var p := InLinkOf(nodes, r').value;
          assert InLinkOf(res, r') == Some(p);
          assert r' in OutLinksOf(nodes, p);
        }
      }
    }
  }

  /** The two pointer writes of a link change only the input's link and the
      end of the output's list. */
  lemma AttachFrame(nodes: Arena, o: OutRef, r: InRef)
    requires ValidOut(nodes, o) && ValidIn(nodes, r)
    ensures var res := SetInLink(SetOutLinks(nodes, o, OutLinksOf(nodes, o) + [r]), r, Some(o));
      && SameSkeleton(nodes, res)
      && (forall r': InRef :: ValidIn(res, r') <==> ValidIn(nodes, r'))
      && (forall o': OutRef :: ValidOut(res, o') <==> ValidOut(nodes, o'))
      && InLinkOf(res, r) == Some(o)
      && OutLinksOf(res, o) == OutLinksOf(nodes, o) + [r]
      && (forall r': InRef :: ValidIn(nodes, r') && r' != r ==> InLinkOf(res, r') == InLinkOf(nodes, r'))
      && (forall o': OutRef :: ValidOut(nodes, o') && o' != o ==> OutLinksOf(res, o') == OutLinksOf(nodes, o'))
  {
    var n1 := SetOutLinks(nodes, o, OutLinksOf(nodes, o) + [r]);
    SameSkeletonTransitive(nodes, n1, SetInLink(n1, r, Some(o)));
  }

  /** Attaching an unlinked input keeps the links symmetric. */
  lemma AttachUnlinkedPreservesSymmetric(nodes: Arena, o: OutRef, r: InRef)
    requires Wf(nodes) && ValidOut(nodes, o) && ValidIn(nodes, r)
    requires Symmetric(nodes) && InLinkOf(nodes, r).None?
    ensures Symmetric(Attach(nodes, o, r))
  {
    AttachKeepsForwardLinked(nodes, o, r);
    AttachKeepsNoDuplicateLinks(nodes, o, r);
  }

  lemma AttachKeepsForwardLinked(nodes: Arena, o: OutRef, r: InRef)
    requires Wf(nodes) && ValidOut(nodes, o) && ValidIn(nodes, r)
    requires ForwardLinked(nodes) && InLinkOf(nodes, r).None?
    ensures ForwardLinked(Attach(nodes, o, r))
  {
    var res := Attach(nodes, o, r);
    forall o': OutRef, r': InRef | ValidOut(res, o') && r' in OutLinksOf(res, o')
      ensures ValidIn(res, r') && InLinkOf(res, r') == Some(o')
    {
      if o' == o {
        if r' != r {
          assert r' in OutLinksOf(nodes, o);
          assert InLinkOf(nodes, r') == Some(o);
        }
      } else {
        assert OutLinksOf(res, o') == OutLinksOf(nodes, o');
        assert InLinkOf(nodes, r') == Some(o');
      }
    }
  }

  lemma AttachKeepsNoDuplicateLinks(nodes: Arena, o: OutRef, r: InRef)
    requires Wf(nodes) && ValidOut(nodes, o) && ValidIn(nodes, r)
    requires ForwardLinked(nodes) && NoDuplicateLinks(nodes) && InLinkOf(nodes, r).None?
    ensures NoDuplicateLinks(Attach(nodes, o, r))
  {
    var res := Attach(nodes, o, r);
    var ls := OutLinksOf(nodes, o);
    assert r !in ls;
    assert NoRepeats(ls);
    assert multiset(ls + [r]) == multiset(ls) + multiset{r};
    forall o': OutRef | ValidOut(res, o')
      ensures NoRepeats(OutLinksOf(res, o'))
    {
      if o' != o {
        assert NoRepeats(OutLinksOf(nodes, o'));
      }
    }
  }

  // ---------------------------------------------------------------------
  // The NodeInstance operations, with names resolved against the prototypes

  /** `Disconnect(inputName)` on instance `n`: false with no change when no
      input has that name or the input is unlinked; otherwise unlinks it. */
  function DisconnectInput(nodes: Arena, n: nat, inputName: string): (r: (bool, Arena))
    requires Wf(nodes) && n < |nodes|
    ensures Wf(r.1) && SameSkeleton(nodes, r.1)
    ensures !r.0 ==> r.1 == nodes
    ensures r.0 <==>
      match FindInputIndex(nodes[n].proto, inputName)
      case None => false
      case Some(i) => InLinkOf(nodes, InRef(n, i)).Some?
    ensures r.0 ==> var i := FindInputIndex(nodes[n].proto, inputName).value;
      && InLinkOf(r.1, InRef(n, i)).None?
      && r.1 == UnlinkInput(nodes, InRef(n, i))
    ensures BackLinked(nodes) ==> BackLinked(r.1)
  {
    match FindInputIndex(nodes[n].proto, inputName)
    case None => (false, nodes)
    case Some(i) =>
      if InLinkOf(nodes, InRef(n, i)).None? then (false, nodes)
      else (true, UnlinkInput(nodes, InRef(n, i)))
  }

  /** A successful `Disconnect(inputName)` erases the input from its
      producer's list exactly once when the producer lists it. */
  lemma DisconnectInputRemovesOneEntry(nodes: Arena, n: nat, inputName: string)
    requires Wf(nodes) && n < |nodes| && BackLinked(nodes)
    requires DisconnectInput(nodes, n, inputName).0
    ensures var i := FindInputIndex(nodes[n].proto, inputName).value;
      var o := InLinkOf(nodes, InRef(n, i)).value;
      var after := DisconnectInput(nodes, n, inputName).1;
      && ValidOut(nodes, o)
      && multiset(OutLinksOf(after, o))[InRef(n, i)] + 1 == multiset(OutLinksOf(nodes, o))[InRef(n, i)]
      && InLinkOf(after, InRef(n, i)).None?
  {
  }

  /** `Disconnect(outputName, linkTarget, inputName)`: resolves both names,
      looks for the target input in this output's list, and if it is there
      calls the target's `Disconnect(inputName)`. */
  function DisconnectEdge(nodes: Arena, n: nat, outputName: string, t: nat, inputName: string): (r: (bool, Arena))
    requires Wf(nodes) && n < |nodes| && t < |nodes|
    ensures Wf(r.1) && SameSkeleton(nodes, r.1)
    ensures !r.0 ==> r.1 == nodes
    ensures r.0 <==>
      && FindOutputIndex(nodes[n].proto, outputName).Some?
      && FindInputIndex(nodes[t].proto, inputName).Some?
      && InRef(t, FindInputIndex(nodes[t].proto, inputName).value) in
           OutLinksOf(nodes, OutRef(n, FindOutputIndex(nodes[n].proto, outputName).value))
    ensures r.0 ==> r.1 == UnlinkInput(nodes, InRef(t, FindInputIndex(nodes[t].proto, inputName).value))
    ensures BackLinked(nodes) ==> BackLinked(r.1)
  {
    match FindOutputIndex(nodes[n].proto, outputName)
    case None => (false, nodes)
    case Some(o) =>
      match FindInputIndex(nodes[t].proto, inputName)
      case None => (false, nodes)
      case Some(i) =>
        if InRef(t, i) !in OutLinksOf(nodes, OutRef(n, o)) then (false, nodes)
        else (true, DisconnectInput(nodes, t, inputName).1)
  }

  /** With symmetric links, `Disconnect(output, target, input)` succeeds
      exactly when that edge exists and removes exactly that edge: the input
      is unlinked, the output no longer lists it, every other pointer is as
      before, and the links stay symmetric. */
  lemma DisconnectEdgeRemovesExactlyThatEdge(nodes: Arena, n: nat, outputName: string, t: nat, inputName: string)
    requires Wf(nodes) && n < |nodes| && t < |nodes| && Symmetric(nodes)
    requires FindOutputIndex(nodes[n].proto, outputName).Some?
    requires FindInputIndex(nodes[t].proto, inputName).Some?
    ensures var o := OutRef(n, FindOutputIndex(nodes[n].proto, outputName).value);
      var r := InRef(t, FindInputIndex(nodes[t].proto, inputName).value);
      var res := DisconnectEdge(nodes, n, outputName, t, inputName);
      && (res.0 <==> InLinkOf(nodes, r) == Some(o))
      && (res.0 ==> InLinkOf(res.1, r).None? && r !in OutLinksOf(res.1, o))
      && (forall r': InRef :: ValidIn(nodes, r') && r' != r ==> InLinkOf(res.1, r') == InLinkOf(nodes, r'))
      && (forall o': OutRef, r': InRef :: ValidOut(nodes, o') && r' != r ==>
            (r' in OutLinksOf(res.1, o') <==> r' in OutLinksOf(nodes, o')))
      && Symmetric(res.1)
  {
    var r := InRef(t, FindInputIndex(nodes[t].proto, inputName).value);
    var res := DisconnectEdge(nodes, n, outputName, t, inputName);
    if res.0 {
      UnlinkPreservesSymmetric(nodes, r);
    }
  }

  /** `CanLink`: only a link from an instance to itself is refused; the socket
      names are not consulted. */
  function CanLink(n: nat, outputName: string, t: nat, inputName: string): (ok: bool)
    ensures ok <==> n != t
  {
    n != t
  }

  /** The pointer work of `Link` once both names are resolved: the call to
      `Disconnect(outputName, linkTarget, inputName)` unlinks the input only
      if THIS output lists it; then the new edge is attached. */
  function LinkResolved(nodes: Arena, o: OutRef, i: InRef): (res: Arena)
    requires Wf(nodes) && ValidOut(nodes, o) && ValidIn(nodes, i)
    ensures Wf(res) && SameSkeleton(nodes, res)
    ensures InLinkOf(res, i) == Some(o) && i in OutLinksOf(res, o)
    ensures multiset(OutLinksOf(nodes, o))[i] == 0 ||
            (multiset(OutLinksOf(nodes, o))[i] == 1 && InLinkOf(nodes, i) == Some(o)) ==>
              multiset(OutLinksOf(res, o))[i] == 1
    ensures BackLinked(nodes) ==> BackLinked(res)
    ensures forall j: InRef :: ValidIn(nodes, j) && j != i ==> InLinkOf(res, j) == InLinkOf(nodes, j)
    ensures OutLinksOf(res, o) ==
              (if i in OutLinksOf(nodes, o) && InLinkOf(nodes, i) == Some(o)
               then RemoveFirst(OutLinksOf(nodes, o), i) else OutLinksOf(nodes, o)) + [i]
    ensures forall q: OutRef :: ValidOut(nodes, q) && q != o ==>
              OutLinksOf(res, q) ==
                if i in OutLinksOf(nodes, o) && InLinkOf(nodes, i) == Some(q)
                then RemoveFirst(OutLinksOf(nodes, q), i) else OutLinksOf(nodes, q)
  {
    var n1 := if i in OutLinksOf(nodes, o) then UnlinkInput(nodes, i) else nodes;
    var res := Attach(n1, o, i);
    SameSkeletonTransitive(nodes, n1, res);
    res
  }

  /** `Link(outputName, linkTarget, inputName)` as written: refused for a link
      from an instance to itself or for an unknown socket name, otherwise the
      edge is made. An edge into the input from a DIFFERENT output is not
      broken first, so that output keeps listing the input. */
  function Link(nodes: Arena, n: nat, outputName: string, t: nat, inputName: string): (r: (bool, Arena))
    requires Wf(nodes) && n < |nodes| && t < |nodes|
    ensures Wf(r.1)
    ensures r.0 <==> n != t && FindOutputIndex(nodes[n].proto, outputName).Some?
                             && FindInputIndex(nodes[t].proto, inputName).Some?
    ensures !r.0 ==> r.1 == nodes
    ensures r.0 ==> r.1 == LinkResolved(nodes,
                             OutRef(n, FindOutputIndex(nodes[n].proto, outputName).value),
                             InRef(t, FindInputIndex(nodes[t].proto, inputName).value))
  {
    if !CanLink(n, outputName, t, inputName) then (false, nodes)
    else match FindOutputIndex(nodes[n].proto, outputName)
      case None => (false, nodes)
      case Some(o) =>
        match FindInputIndex(nodes[t].proto, inputName)
        case None => (false, nodes)
        case Some(i) =>
          var n1 := DisconnectEdge(nodes, n, outputName, t, inputName).1;
          (true, Attach(n1, OutRef(n, o), InRef(t, i)))
  }

  /** When the target input is unlinked or already linked from this output,
      linking keeps the links symmetric. */
  lemma LinkPreservesSymmetric(nodes: Arena, o: OutRef, i: InRef)
    requires Wf(nodes) && ValidOut(nodes, o) && ValidIn(nodes, i) && Symmetric(nodes)
    requires InLinkOf(nodes, i).None? || InLinkOf(nodes, i) == Some(o)
    ensures Symmetric(LinkResolved(nodes, o, i))
  {
    if i in OutLinksOf(nodes, o) {
      UnlinkPreservesSymmetric(nodes, i);
      AttachUnlinkedPreservesSymmetric(UnlinkInput(nodes, i), o, i);
    } else {
      AttachUnlinkedPreservesSymmetric(nodes, o, i);
    }
  }

  /** The stale edge: when the target input is linked from a different output
      `p`, linking leaves `p` listing the input although the input now points
      at the new output, so the links are no longer symmetric. */
  lemma LinkLeavesStaleEdge(nodes: Arena, o: OutRef, i: InRef, p: OutRef)
    requires Wf(nodes) && ValidOut(nodes, o) && ValidIn(nodes, i) && Symmetric(nodes)
    requires InLinkOf(nodes, i) == Some(p) && p != o
    ensures var res := LinkResolved(nodes, o, i);
      && ValidOut(res, p) && i in OutLinksOf(res, p) && InLinkOf(res, i) != Some(p)
      && !ForwardLinked(res)
  {
    assert i !in OutLinksOf(nodes, o);
    assert i in OutLinksOf(nodes, p);
  }

  /** A stale entry can even be doubled: an output that lists an input not
      linked back to it gets a second entry when it is linked again. */
  lemma LinkDuplicatesStaleEntry(nodes: Arena, o: OutRef, i: InRef)
    requires Wf(nodes) && ValidOut(nodes, o) && ValidIn(nodes, i)
    requires multiset(OutLinksOf(nodes, o))[i] == 1 && InLinkOf(nodes, i) != Some(o)
    ensures multiset(OutLinksOf(LinkResolved(nodes, o, i), o))[i] == 2
  {
    assert i in OutLinksOf(nodes, o);
  }

  /** The pointer work of a link where the last write wins, so an input never
      has two producers: the input is first disconnected from whatever output
      feeds it, then the new edge is attached. */
  function LinkReplacingResolved(nodes: Arena, o: OutRef, i: InRef): (res: Arena)
    requires Wf(nodes) && ValidOut(nodes, o) && ValidIn(nodes, i)
    ensures Wf(res) && SameSkeleton(nodes, res)
    ensures InLinkOf(res, i) == Some(o) && i in OutLinksOf(res, o)
    ensures forall j: InRef :: ValidIn(nodes, j) && j != i ==> InLinkOf(res, j) == InLinkOf(nodes, j)
    ensures OutLinksOf(res, o) ==
              (if InLinkOf(nodes, i) == Some(o) then RemoveFirst(OutLinksOf(nodes, o), i)
               else OutLinksOf(nodes, o)) + [i]
    ensures forall q: OutRef :: ValidOut(nodes, q) && q != o ==>
              OutLinksOf(res, q) ==
                if InLinkOf(nodes, i) == Some(q) then RemoveFirst(OutLinksOf(nodes, q), i)
                else OutLinksOf(nodes, q)
  {
    var n1 := UnlinkInput(nodes, i);
    var res := Attach(n1, o, i);
    SameSkeletonTransitive(nodes, n1, res);
    res
  }

  /** `Link` corrected to disconnect the target input (`linkTarget.Disconnect
      (inputName)`) instead of only an edge from this output. */
  function LinkReplacing(nodes: Arena, n: nat, outputName: string, t: nat, inputName: string): (r: (bool, Arena))
    requires Wf(nodes) && n < |nodes| && t < |nodes|
    ensures Wf(r.1)
    ensures r.0 <==> n != t && FindOutputIndex(nodes[n].proto, outputName).Some?
                             && FindInputIndex(nodes[t].proto, inputName).Some?
    ensures !r.0 ==> r.1 == nodes
    ensures r.0 ==> r.1 == LinkReplacingResolved(nodes,
                             OutRef(n, FindOutputIndex(nodes[n].proto, outputName).value),
                             InRef(t, FindInputIndex(nodes[t].proto, inputName).value))
  {
    if !CanLink(n, outputName, t, inputName) then (false, nodes)
    else match FindOutputIndex(nodes[n].proto, outputName)
      case None => (false, nodes)
      case Some(o) =>
        match FindInputIndex(nodes[t].proto, inputName)
        case None => (false, nodes)
        case Some(i) =>
          var n1 := DisconnectInput(nodes, t, inputName).1;
          (true, Attach(n1, OutRef(n, o), InRef(t, i)))
  }

  /** The replacing link keeps the links symmetric whatever fed the input
      before; afterwards no other output lists the input. */
  lemma LinkReplacingPreservesSymmetric(nodes: Arena, o: OutRef, i: InRef)
    requires Wf(nodes) && ValidOut(nodes, o) && ValidIn(nodes, i) && Symmetric(nodes)
    ensures var res := LinkReplacingResolved(nodes, o, i);
      && Symmetric(res)
      && forall p: OutRef :: ValidOut(res, p) && p != o ==> i !in OutLinksOf(res, p)
  {
    UnlinkPreservesSymmetric(nodes, i);
    AttachUnlinkedPreservesSymmetric(UnlinkInput(nodes, i), o, i);
  }

  /** Where the source is safe (input unlinked or fed by this same output),
      the two link functions agree. */
  lemma LinkAgreesWithReplacing(nodes: Arena, o: OutRef, i: InRef)
    requires Wf(nodes) && ValidOut(nodes, o) && ValidIn(nodes, i) && Symmetric(nodes)
    requires InLinkOf(nodes, i).None? || InLinkOf(nodes, i) == Some(o)
    ensures LinkResolved(nodes, o, i) == LinkReplacingResolved(nodes, o, i)
  {
    if InLinkOf(nodes, i).None? {
      assert i !in OutLinksOf(nodes, o);
    }
  }

  // ---------------------------------------------------------------------
  // Generated variable names and input resolution

  /** `GetOutputVarName(outputIdx)`: "var", the node index, "_", the output
      index, both in decimal. */
  function GetOutputVarName(x: NodeInstance, outputIdx: nat): (s: string)
    ensures ParseVarName(s) == Some((x.nodeIndex, outputIdx))
  {
    var a := NatToString(x.nodeIndex);
    var b := NatToString(outputIdx);
    var s := "var" + a + "_" + b;
    assert s[..3] == "var";
    assert s[3..] == a + ['_'] + b;
    IndexOfAfterDigits(a, '_', b);
    assert (a + ['_'] + b)[..|a|] == a;
    assert (a + ['_'] + b)[|a| + 1..] == b;
    NatToStringRoundTrip(x.nodeIndex);
    NatToStringRoundTrip(outputIdx);
    s
  }

  /** Reads a generated variable name back into (node index, output index). */
  function ParseVarName(s: string): Option<(nat, nat)> {
    if |s| < 3 || s[..3] != "var" then None
    else
      var rest := s[3..];
      match IndexOf(rest, '_')
      case None => None
      case Some(k) =>
        var a := rest[..k];
        var b := rest[k + 1..];
        if |a| > 0 && |b| > 0 && AllDigits(a) && AllDigits(b)
        then Some((DigitsValue(a), DigitsValue(b)))
        else None
  }

  /** Distinct (node index, output index) pairs give distinct names. */
  lemma VarNamesDistinct(x: NodeInstance, i: nat, y: NodeInstance, j: nat)
    requires x.nodeIndex != y.nodeIndex || i != j
    ensures GetOutputVarName(x, i) != GetOutputVarName(y, j)
  {
  }

  /** `GetOutputVarName(name)`: the name of the first output called `name`,
      or `std::invalid_argument` when there is none. */
  function GetOutputVarNameByName(x: NodeInstance, name: string): (r: Result<string>)
    ensures r.Err? <==> forall k :: 0 <= k < |x.proto.outputs| ==> x.proto.outputs[k].name != name
    ensures r.Err? ==> r.error == InvalidArgument
    ensures r.Ok? ==>
      var p := ParseVarName(r.value);
      && p.Some? && p.value.0 == x.nodeIndex
      && FindOutputIndex(x.proto, name) == Some(p.value.1)
  {
    match FindOutputIndex(x.proto, name)
    case None => Err(InvalidArgument)
    case Some(k) => Ok(GetOutputVarName(x, k))
  }

  /** `GetInputNameOrValue(instance, inputIdx)`: `std::vector::at` fails past
      the last input; a linked input yields the producing output's variable
      name; an unlinked one yields the text of its value, as rendered by
      `render` (the string conversion of the input's value given its socket
      declaration, which is not part of this model). */
  function GetInputNameOrValue(nodes: Arena, n: nat, inputIdx: nat,
                               render: (Socket, Value) -> string): (r: Result<string>)
    requires Wf(nodes) && n < |nodes|
    ensures r.Err? <==> inputIdx >= |nodes[n].inputs|
    ensures r.Err? ==> r.error == OutOfRange
    ensures r.Ok? && InLinkOf(nodes, InRef(n, inputIdx)).Some? ==>
      var o := InLinkOf(nodes, InRef(n, inputIdx)).value;
      ParseVarName(r.value) == Some((nodes[o.node].nodeIndex, o.output))
    ensures r.Ok? && InLinkOf(nodes, InRef(n, inputIdx)).None? ==>
      r.value == render(nodes[n].proto.inputs[inputIdx], nodes[n].inputs[inputIdx].value)
  {
    if inputIdx >= |nodes[n].inputs| then Err(OutOfRange)
    else match InLinkOf(nodes, InRef(n, inputIdx))
      case Some(o) => Ok(GetOutputVarName(nodes[o.node], o.output))
      case None => Ok(render(nodes[n].proto.inputs[inputIdx], nodes[n].inputs[inputIdx].value))
  }

  /** `GetInputNameOrValue(instance, inputName)`: `std::invalid_argument` when
      no input has that name, otherwise the by-index result at the first
      input so named, which then always succeeds. */
  function GetInputNameOrValueByName(nodes: Arena, n: nat, inputName: string,
                                     render: (Socket, Value) -> string): (r: Result<string>)
    requires Wf(nodes) && n < |nodes|
    ensures r.Err? <==> FindInputIndex(nodes[n].proto, inputName).None?
    ensures r.Err? ==> r.error == InvalidArgument
    ensures r.Ok? ==> r == GetInputNameOrValue(nodes, n, FindInputIndex(nodes[n].proto, inputName).value, render)
  {
    match FindInputIndex(nodes[n].proto, inputName)
    case None => Err(InvalidArgument)
    case Some(k) => GetInputNameOrValue(nodes, n, k, render)
  }
}
