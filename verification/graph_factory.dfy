/**
 Construction of graph elements: graphs, groups and leaves with their
 overloads that default to empty sets, and the one rule that guards links:
 a link is refused when either of its ports already holds one.

 Object identity is modelled by a handle the caller supplies for every new
 leaf or group; ports are named by their node's handle and their index.
 */
module GraphFactory {

  type Handle = nat

  datatype Leaf = Leaf(handle: Handle, inputCount: int, outputCount: int)

  datatype Group = Group(handle: Handle, leaves: set<Leaf>, groups: set<Group>)

  datatype Graph = Graph(leaves: set<Leaf>, groups: set<Group>)

  function CreateGraph(leaves: set<Leaf>, groups: set<Group>): (g: Graph)
    ensures g.leaves == leaves && g.groups == groups
  {
    Graph(leaves, groups)
  }

  /** The one-argument overload: a graph of leaves and no groups. */
  function CreateGraphOfLeaves(leaves: set<Leaf>): (g: Graph)
    ensures g == CreateGraph(leaves, {})
    ensures g.groups == {}
  {
    CreateGraph(leaves, {})
  }

  /** The argument-less overload: a graph with nothing in it. */
  function CreateEmptyGraph(): (g: Graph)
    ensures g == CreateGraph({}, {})
    ensures g == CreateGraphOfLeaves({})
    ensures g.leaves == {} && g.groups == {}
  {
    CreateGraph({}, {})
  }

  /** A new leaf with exactly the requested numbers of inputs and outputs. */
  function CreateLeaf(handle: Handle, inputNumber: int, outputNumber: int): (l: Leaf)
    ensures l.handle == handle
    ensures l.inputCount == inputNumber && l.outputCount == outputNumber
  {
    Leaf(handle, inputNumber, outputNumber)
  }

  function CreateGroup(handle: Handle, leaves: set<Leaf>, groups: set<Group>): (g: Group)
    ensures g.handle == handle && g.leaves == leaves && g.groups == groups
  {
    Group(handle, leaves, groups)
  }

  /** The one-argument overload: a group of leaves and no sub-groups. */
  function CreateGroupOfLeaves(handle: Handle, leaves: set<Leaf>): (g: Group)
    ensures g == CreateGroup(handle, leaves, {})
    ensures g.groups == {}
  {
    CreateGroup(handle, leaves, {})
  }

  /** The argument-less overload: an empty group. */
  function CreateEmptyGroup(handle: Handle): (g: Group)
    ensures g == CreateGroup(handle, {}, {})
    ensures g == CreateGroupOfLeaves(handle, {})
    ensures g.leaves == {} && g.groups == {}
  {
    CreateGroup(handle, {}, {})
  }

  // ---------------------------------------------------------------------------
  // Links
  // ---------------------------------------------------------------------------

  datatype Output = Output(node: Handle, index: nat)

  datatype Input = Input(node: Handle, index: nat)

  /** A link binds one output to one input. */
  datatype Link = Link(output: Output, input: Input)

  /** The link each port currently holds; a port absent from its map is free. */
  datatype Wiring = Wiring(inputLinks: map<Input, Link>, outputLinks: map<Output, Link>)

  datatype GraphError = PortsAlreadyUsed

  datatype Result<T> = Ok(value: T) | Err(error: GraphError)

  /**
   Creates a link from `output` to `input`. It fails exactly when either port
   already holds a link; otherwise the link binds exactly these two ports.
   Nothing requires the two ports to belong to different nodes.
   */
  function CreateLink(w: Wiring, output: Output, input: Input): (r: Result<Link>)
    ensures r.Err? <==> input in w.inputLinks || output in w.outputLinks
    ensures r.Err? ==> r.error == PortsAlreadyUsed
    ensures r.Ok? ==> r.value.output == output && r.value.input == input
  {
    if input in w.inputLinks || output in w.outputLinks then Err(PortsAlreadyUsed)
    else Ok(Link(output, input))
  }

  lemma LinkedInputRefused(w: Wiring, output: Output, input: Input)
    requires input in w.inputLinks
    ensures CreateLink(w, output, input) == Err(PortsAlreadyUsed)
  {
  }

  lemma LinkedOutputRefused(w: Wiring, output: Output, input: Input)
    requires output in w.outputLinks
    ensures CreateLink(w, output, input) == Err(PortsAlreadyUsed)
  {
  }

  /** An output and an input of the same node may be linked to each other. */
  lemma SelfLinkAllowed(w: Wiring, node: Handle, outIndex: nat, inIndex: nat)
    requires Output(node, outIndex) !in w.outputLinks && Input(node, inIndex) !in w.inputLinks
    ensures CreateLink(w, Output(node, outIndex), Input(node, inIndex))
         == Ok(Link(Output(node, outIndex), Input(node, inIndex)))
  {
  }

  /**
   Every link a port holds binds that very port, and the port at its other end
   holds the same link: a port holds at most one link, and links are seen
   alike from both ends.
   */
  predicate Consistent(w: Wiring)
  {
    && (forall i | i in w.inputLinks ::
          w.inputLinks[i].input == i
          && w.inputLinks[i].output in w.outputLinks
          && w.outputLinks[w.inputLinks[i].output] == w.inputLinks[i])
    && (forall o | o in w.outputLinks ::
          w.outputLinks[o].output == o
          && w.outputLinks[o].input in w.inputLinks
          && w.inputLinks[w.outputLinks[o].input] == w.outputLinks[o])
  }

  /**
   Creates a link and records it on both of its ports. On success both ports
   hold the new link, every other port keeps what it held, and a consistent
   wiring stays consistent; on failure nothing is recorded.
   */
  function Connect(w: Wiring, output: Output, input: Input): (r: Result<Wiring>)
    ensures r.Err? <==> input in w.inputLinks || output in w.outputLinks
    ensures r.Ok? ==> r.value.inputLinks.Keys == w.inputLinks.Keys + {input}
    ensures r.Ok? ==> r.value.outputLinks.Keys == w.outputLinks.Keys + {output}
    ensures r.Ok? ==> r.value.inputLinks[input] == Link(output, input)
    ensures r.Ok? ==> r.value.outputLinks[output] == Link(output, input)
    ensures r.Ok? ==> forall i | i in w.inputLinks :: r.value.inputLinks[i] == w.inputLinks[i]
    ensures r.Ok? ==> forall o | o in w.outputLinks :: r.value.outputLinks[o] == w.outputLinks[o]
    ensures r.Ok? && Consistent(w) ==> Consistent(r.value)
  {
    match CreateLink(w, output, input)
    case Err(e) => Err(e)
    case Ok(link) => Ok(Wiring(w.inputLinks[input := link], w.outputLinks[output := link]))
  }
}
