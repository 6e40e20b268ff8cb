/**
 * An abstract computation graph, as much of it as the rewrite rules need:
 * nodes addressed by index, each with its input and output definitions
 * (the named values it reads and writes) and the set of nodes that consume
 * its outputs.  The editor owns the node map and changes it in place.
 */
module Graph {

  type NodeIndex = nat

  /** A value flowing along an edge, identified by its name. */
  type Def = string

  datatype Node = Node(
    opType: string,
    inputDefs: seq<Def>,
    outputDefs: seq<Def>,
    consumers: set<NodeIndex>)

  /** Each definition that is a key of `replacements` is swapped for its image; the others stay. */
  function Substitute(defs: seq<Def>, replacements: map<Def, Def>): (r: seq<Def>)
    ensures |r| == |defs|
    ensures forall i :: 0 <= i < |defs| && defs[i] !in replacements ==> r[i] == defs[i]
    ensures forall i :: 0 <= i < |defs| && defs[i] in replacements ==> r[i] == replacements[defs[i]]
  {
    seq(|defs|, i requires 0 <= i < |defs| =>
      if defs[i] in replacements then replacements[defs[i]] else defs[i])
  }

  /** A node with its input and output definitions substituted; its kind and consumers are kept. */
  function ReplacedDefs(node: Node, replacements: map<Def, Def>): Node
  {
    node.(inputDefs := Substitute(node.inputDefs, replacements),
          outputDefs := Substitute(node.outputDefs, replacements))
  }

  class GraphEditor {
    var nodes: map<NodeIndex, Node>

    constructor(nodes: map<NodeIndex, Node>)
      ensures this.nodes == nodes
    {
      this.nodes := nodes;
    }

    /** Substitutes definitions in one node, in place. */
    method ReplaceDefs(index: NodeIndex, replacements: map<Def, Def>)
      requires index in nodes
      modifies this
      ensures nodes == old(nodes)[index := ReplacedDefs(old(nodes)[index], replacements)]
    {
      nodes := nodes[index := ReplacedDefs(nodes[index], replacements)];
    }

    /** Drops a node from the graph; edges that named it are not rebuilt. */
    method RemoveNode(index: NodeIndex)
      modifies this
      ensures nodes == old(nodes) - {index}
    {
      nodes := nodes - {index};
    }
  }
}
