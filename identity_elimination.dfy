/**
 * The rewrite rule that removes Identity nodes: every consumer of the
 * node's output is made to read the node's input instead, then the node is
 * dropped from the graph.
 */
module IdentityElimination {
  import opened Common
  import opened Graph

  /** An Identity node has (at least) the one input and the one output the rule reads. */
  predicate IsIdentityShaped(node: Node)
  {
    |node.inputDefs| >= 1 && |node.outputDefs| >= 1
  }

  /** The substitution the rule applies: the node's first output becomes its first input, and nothing else changes. */
  function Replacement(node: Node): (r: map<Def, Def>)
    requires IsIdentityShaped(node)
    ensures r.Keys == {node.outputDefs[0]}
    ensures r[node.outputDefs[0]] == node.inputDefs[0]
  {
    map[node.outputDefs[0] := node.inputDefs[0]]
  }

  /** The rule applies to every Identity node, unconditionally. */
  function SatisfyCondition(node: Node): (r: bool)
    ensures r
  {
    true
  }

  /** The nodes in `done` with `replacements` applied; every other node as it was. */
  ghost function Rewired(nodes: map<NodeIndex, Node>, done: set<NodeIndex>, replacements: map<Def, Def>): map<NodeIndex, Node>
  {
    map k | k in nodes :: if k in done then ReplacedDefs(nodes[k], replacements) else nodes[k]
  }

  /** The graph after the rule fires on node `index`: consumers rewired, the node itself gone. */
  ghost function Eliminated(nodes: map<NodeIndex, Node>, index: NodeIndex): map<NodeIndex, Node>
    requires index in nodes && IsIdentityShaped(nodes[index])
  {
    Rewired(nodes, nodes[index].consumers, Replacement(nodes[index])) - {index}
  }

  /**
   * Rewires every consumer of the Identity node to its input, raising
   * `modified` once per consumer (so it is left alone when there are none),
   * then removes the node.  There is no failure path.
   */
  method Apply(editor: GraphEditor, index: NodeIndex, modified: bool) returns (status: Status, modifiedOut: bool)
    requires index in editor.nodes && IsIdentityShaped(editor.nodes[index])
    requires forall c :: c in editor.nodes[index].consumers ==> c in editor.nodes
    modifies editor
    ensures status == OK
    ensures editor.nodes == Eliminated(old(editor.nodes), index)
    ensures modifiedOut == (modified || old(editor.nodes)[index].consumers != {})
  {
    var node := editor.nodes[index];
    var replacements := Replacement(node);
    ghost var original := editor.nodes;
    modifiedOut := modified;
    var todo := node.consumers;
    while todo != {}
      invariant todo <= node.consumers
      invariant editor.nodes == Rewired(original, node.consumers - todo, replacements)
      invariant modifiedOut == (modified || todo != node.consumers)
      decreases todo
    {
      var c :| c in todo;
      RewiredStep(original, node.consumers - todo, c, replacements);
      editor.ReplaceDefs(c, replacements);
      assert node.consumers - (todo - {c}) == (node.consumers - todo) + {c};
      todo := todo - {c};
      modifiedOut := true;
    }
    editor.RemoveNode(index);
    status := OK;
  }

  lemma {:induction false} RewiredStep(nodes: map<NodeIndex, Node>, done: set<NodeIndex>, c: NodeIndex, replacements: map<Def, Def>)
    requires c in nodes && c !in done
    ensures c in Rewired(nodes, done, replacements)
    ensures Rewired(nodes, done + {c}, replacements) ==
            Rewired(nodes, done, replacements)[c := ReplacedDefs(nodes[c], replacements)]
  {
  }

  // ---------------------------------------------------------------------------
  // Properties

  /** The Identity node is gone and every other node is still there. */
  lemma {:induction false} EliminatedRemovesOnlyTheNode(nodes: map<NodeIndex, Node>, index: NodeIndex)
    requires index in nodes && IsIdentityShaped(nodes[index])
    ensures Eliminated(nodes, index).Keys == nodes.Keys - {index}
  {
  }

  /**
   * In every consumer, each occurrence of the Identity's output becomes the
   * Identity's input; every other definition, the kind and the consumer set
   * are kept.
   */
  lemma {:induction false} EliminatedRewiresConsumers(nodes: map<NodeIndex, Node>, index: NodeIndex, c: NodeIndex)
    requires index in nodes && IsIdentityShaped(nodes[index])
    requires c in nodes && c in nodes[index].consumers && c != index
    ensures var before, after := nodes[c], Eliminated(nodes, index)[c];
      var output, input := nodes[index].outputDefs[0], nodes[index].inputDefs[0];
      after.opType == before.opType && after.consumers == before.consumers &&
      |after.inputDefs| == |before.inputDefs| && |after.outputDefs| == |before.outputDefs| &&
      (forall i :: 0 <= i < |before.inputDefs| ==>
        after.inputDefs[i] == if before.inputDefs[i] == output then input else before.inputDefs[i]) &&
      (forall i :: 0 <= i < |before.outputDefs| ==>
        after.outputDefs[i] == if before.outputDefs[i] == output then input else before.outputDefs[i])
  {
    var r := Replacement(nodes[index]);
    assert Eliminated(nodes, index)[c] == ReplacedDefs(nodes[c], r);
  }

  /** Unless the Identity maps a value to itself, no consumer reads the Identity's output any more. */
  lemma {:induction false} EliminatedLeavesNoReader(nodes: map<NodeIndex, Node>, index: NodeIndex, c: NodeIndex)
    requires index in nodes && IsIdentityShaped(nodes[index])
    requires nodes[index].inputDefs[0] != nodes[index].outputDefs[0]
    requires c in nodes && c in nodes[index].consumers && c != index
    ensures nodes[index].outputDefs[0] !in Eliminated(nodes, index)[c].inputDefs
  {
    var r := Replacement(nodes[index]);
    var after := Eliminated(nodes, index)[c];
    assert after == ReplacedDefs(nodes[c], r);
    forall i | 0 <= i < |after.inputDefs| ensures after.inputDefs[i] != nodes[index].outputDefs[0] {
      assert after.inputDefs[i] == Substitute(nodes[c].inputDefs, r)[i];
    }
  }

  /** Nodes that do not consume the Identity's output are untouched. */
  lemma {:induction false} EliminatedKeepsOthers(nodes: map<NodeIndex, Node>, index: NodeIndex, k: NodeIndex)
    requires index in nodes && IsIdentityShaped(nodes[index])
    requires k in nodes && k !in nodes[index].consumers && k != index
    ensures k in Eliminated(nodes, index) && Eliminated(nodes, index)[k] == nodes[k]
  {
  }

  /** Applying the rule a second time has nothing left to substitute in a consumer. */
  lemma {:induction false} ReplaceDefsIdempotent(node: Node, identity: Node)
    requires IsIdentityShaped(identity) && identity.inputDefs[0] != identity.outputDefs[0]
    ensures var r := Replacement(identity);
      ReplacedDefs(ReplacedDefs(node, r), r) == ReplacedDefs(node, r)
  {
    var r := Replacement(identity);
    var once := ReplacedDefs(node, r);
    var twice := ReplacedDefs(once, r);
    assert twice.inputDefs == once.inputDefs;
    assert twice.outputDefs == once.outputDefs;
  }
}
