/**
 * The network: an ordered list of nodes, the variable names derived from it
 * in the same order, and lookup of a node by its variable name.
 *
 * The network is never changed after it is built, so the name list and the
 * name-to-node map are functions of the node list.
 */
module Nets {
  import opened Wrappers
  import opened Nodes

  datatype BayesNet = BayesNet(nodes: seq<BayesNode>)

  /** Position i is the last node named name. */
  predicate IsLastNamed(nodes: seq<BayesNode>, i: int, name: Name)
  {
    && 0 <= i < |nodes|
    && nodes[i].name == name
    && forall j :: i < j < |nodes| ==> nodes[j].name != name
  }

  /** No two nodes share a name. */
  predicate UniqueNames(nodes: seq<BayesNode>)
  {
    forall i, j :: 0 <= i < j < |nodes| ==> nodes[i].name != nodes[j].name
  }

  /**
   * The name-to-node map, built by inserting the nodes in order: a later node
   * with the same name replaces an earlier one.
   */
  function NodeMap(nodes: seq<BayesNode>): (m: map<Name, BayesNode>)
    ensures m.Keys == set n | n in nodes :: n.name
    ensures forall name :: name in m ==> exists i :: IsLastNamed(nodes, i, name) && m[name] == nodes[i]
  {
    if nodes == [] then map[]
    else
      var init, last := nodes[..|nodes| - 1], nodes[|nodes| - 1];
      var m := NodeMap(init)[last.name := last];
      assert nodes == init + [last];
      forall name | name in m
        ensures exists i :: IsLastNamed(nodes, i, name) && m[name] == nodes[i]
      {
        if name == last.name {
          assert IsLastNamed(nodes, |nodes| - 1, name);
        } else {
          var i :| IsLastNamed(init, i, name) && NodeMap(init)[name] == init[i];
          assert IsLastNamed(nodes, i, name);
        }
      }
      m
  }

  /** The variable names of the network, in node order. */
  function Variables(net: BayesNet): (vs: seq<Name>)
    ensures |vs| == |net.nodes|
    ensures forall i :: 0 <= i < |vs| ==> vs[i] == net.nodes[i].name
    decreases |net.nodes|
  {
    var nodes := net.nodes;
    if nodes == [] then []
    else Variables(BayesNet(nodes[..|nodes| - 1])) + [nodes[|nodes| - 1].name]
  }

  /** The node named name, or None when no node has that name. */
  function GetNode(net: BayesNet, name: Name): (r: Option<BayesNode>)
    ensures r.Some? <==> exists i :: 0 <= i < |net.nodes| && net.nodes[i].name == name
    ensures r.Some? ==> r.value.name == name
    ensures r.Some? ==> exists i :: IsLastNamed(net.nodes, i, name) && r.value == net.nodes[i]
  {
    var m := NodeMap(net.nodes);
    if name in m then Some(m[name]) else None
  }

  /** With unique names, looking up the i-th node's name gives back that node. */
  lemma GetNodeUnique(net: BayesNet, i: int)
    requires UniqueNames(net.nodes)
    requires 0 <= i < |net.nodes|
    ensures GetNode(net, net.nodes[i].name) == Some(net.nodes[i])
  {
  }

  /** A name is a variable of the network exactly when lookup finds a node for it. */
  lemma VariablesMatchLookup(net: BayesNet, name: Name)
    ensures name in Variables(net) <==> GetNode(net, name).Some?
  {
  }
}
