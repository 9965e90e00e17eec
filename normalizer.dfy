/** The graph normaliser of app/analysis.py, as the loops it is written
    with: per policy, append nodes and edges to two lists; then deduplicate
    the nodes through a dict keyed by id. */
module Normalizer {
  import opened Models
  import opened GraphModel
  import opened GraphProperties
  import opened SeqFacts

  /** The state of the dict after inserting the nodes `seen`: `order` is its
      key order and `byId` its contents. */
  ghost predicate DictOf(seen: seq<Node>, order: seq<string>, byId: map<string, Node>) {
    && order == FirstIds(seen)
    && (forall k :: k in byId <==> k in Ids(seen))
    && (forall k :: k in byId ==> byId[k] == LastWith(seen, k))
  }

  lemma DictInsert(seen: seq<Node>, order: seq<string>, byId: map<string, Node>, node: Node)
    requires DictOf(seen, order, byId)
    ensures DictOf(seen + [node], if node.id in byId then order else order + [node.id], byId[node.id := node])
  {
    IdsSnoc(seen, node);
    FirstIdsSnoc(seen, node);
    forall k | k in byId || k == node.id
      ensures LastWith(seen + [node], k) == if k == node.id then node else LastWith(seen, k)
    {
      LastWithSnoc(seen, node, k);
    }
  }

  /** `dict.values()`: the values in key order. */
  function Values(order: seq<string>, byId: map<string, Node>): seq<Node>
    requires forall k :: k in order ==> k in byId
  {
    seq(|order|, j requires 0 <= j < |order| => byId[order[j]])
  }

  lemma DictValues(ns: seq<Node>, order: seq<string>, byId: map<string, Node>)
    requires DictOf(ns, order, byId)
    ensures forall k :: k in order ==> k in byId
    ensures Values(order, byId) == Dedup(ns)
  {
    assert |Values(order, byId)| == |Dedup(ns)|;
    assert forall j :: 0 <= j < |order| ==> Values(order, byId)[j] == Dedup(ns)[j];
  }

  /** The dict comprehension `{node.id: node for node in nodes}.values()`:
      a key keeps the slot of its first insertion, a later insertion with
      the same key overwrites the value. */
  method DeduplicateById(ns: seq<Node>) returns (unique: seq<Node>)
    ensures unique == Dedup(ns)
  {
    var order: seq<string> := [];
    var byId: map<string, Node> := map[];
    for i := 0 to |ns|
      invariant DictOf(ns[..i], order, byId)
    {
      var node := ns[i];
      DictInsert(ns[..i], order, byId, node);
      TakeSnoc(ns, i);
      if node.id !in byId {
        order := order + [node.id];
      }
      byId := byId[node.id := node];
    }
    TakeAll(ns);
    DictValues(ns, order, byId);
    unique := Values(order, byId);
  }

  // ---------------------------------------------------------------------
  // The normaliser

  lemma EmittedPrefixStep(ps: seq<CAPolicy>, i: nat)
    requires i < |ps|
    ensures EmittedNodes(ps[..i + 1]) == EmittedNodes(ps[..i]) + PolicyNodes(ps[i])
    ensures EmittedEdges(ps[..i + 1]) == EmittedEdges(ps[..i]) + PolicyEdges(ps[i])
  {
    TakeSnoc(ps, i);
  }

  /** The loop over the include entries of one policy: per entry, a
      condition node and an Include edge into the policy node. */
  method EmitConditions(policyNodeId: string, usersInc: seq<string>, nodes0: seq<Node>, edges0: seq<Edge>)
    returns (nodes: seq<Node>, edges: seq<Edge>)
    ensures nodes == nodes0 + ConditionNodes(usersInc)
    ensures edges == edges0 + IncludeEdges(usersInc, policyNodeId)
  {
    nodes, edges := nodes0, edges0;
    for j := 0 to |usersInc|
      invariant nodes == nodes0 + ConditionNodes(usersInc[..j])
      invariant edges == edges0 + IncludeEdges(usersInc[..j], policyNodeId)
    {
      var u := usersInc[j];
      TakeSnoc(usersInc, j);
      var caption := if u == AllSentinel then AllUsersLabel else u;
      var nodeId := ConditionPrefix + u;
      nodes := nodes + [ConditionNode(nodeId, caption)];
      edges := edges + [Edge(nodeId, policyNodeId, Include)];
    }
    TakeAll(usersInc);
  }

  /** The loop over the built-in grant controls of one policy: per control,
      a control node and a Grant edge out of the policy node. */
  method EmitControls(policyNodeId: string, controls: seq<string>, nodes0: seq<Node>, edges0: seq<Edge>)
    returns (nodes: seq<Node>, edges: seq<Edge>)
    ensures nodes == nodes0 + ControlNodes(controls)
    ensures edges == edges0 + GrantEdges(policyNodeId, controls)
  {
    nodes, edges := nodes0, edges0;
    for j := 0 to |controls|
      invariant nodes == nodes0 + ControlNodes(controls[..j])
      invariant edges == edges0 + GrantEdges(policyNodeId, controls[..j])
    {
      var control := controls[j];
      TakeSnoc(controls, j);
      var controlNodeId := ControlPrefix + control;
      nodes := nodes + [ControlNode(controlNodeId, control)];
      edges := edges + [Edge(policyNodeId, controlNodeId, Grant)];
    }
    TakeAll(controls);
  }

  /** The body of the loop over the policies: append one policy's nodes
      and edges to the lists built so far. */
  method EmitPolicy(policy: CAPolicy, nodes0: seq<Node>, edges0: seq<Edge>)
    returns (nodes: seq<Node>, edges: seq<Edge>)
    ensures nodes == nodes0 + PolicyNodes(policy)
    ensures edges == edges0 + PolicyEdges(policy)
  {
    var policyNodeId := PolicyPrefix + policy.id;
    nodes := nodes0 + [PolicyNode(policyNodeId, policy.displayName, policy.state)];
    edges := edges0;
    ghost var nodes1 := nodes;
    ghost var inc, controls := IncludeEntries(policy), Controls(policy);
    if policy.conditions.users.Some? && policy.conditions.users.value != map[] {
      var usersInc := UsersList(policy, IncludeUsersKey) + UsersList(policy, IncludeGroupsKey);
      assert usersInc == inc;
      nodes, edges := EmitConditions(policyNodeId, usersInc, nodes, edges);
    } else {
      assert inc == [];
    }
    ghost var nodes2, edges2 := nodes, edges;
    assert nodes2 == nodes1 + ConditionNodes(inc);
    assert edges2 == edges0 + IncludeEdges(inc, policyNodeId);
    if policy.grantControls.Some? {
      nodes, edges := EmitControls(policyNodeId, policy.grantControls.value.builtInControls, nodes, edges);
    } else {
      assert controls == [];
    }
    assert nodes == nodes2 + ControlNodes(controls);
    assert edges == edges2 + GrantEdges(policyNodeId, controls);
    ConcatAssoc(nodes0, [PolicyNodeOf(policy)], ConditionNodes(inc), ControlNodes(controls));
    ConcatAssoc(edges0, [], IncludeEdges(inc, policyNodeId), GrantEdges(policyNodeId, controls));
  }

  /** normalize_policies_for_graph: per policy, append its policy node, a
      condition node and an Include edge per include entry, and a control
      node and a Grant edge per built-in control; then deduplicate nodes. */
  method NormalizePoliciesForGraph(ps: seq<CAPolicy>) returns (graph: Graph)
    ensures graph.nodes == Dedup(EmittedNodes(ps))
    ensures graph.edges == EmittedEdges(ps)
    ensures Distinct(Ids(graph.nodes))
    ensures forall k :: k in Ids(graph.nodes) <==> k in Ids(EmittedNodes(ps))
    ensures |graph.edges| == EdgeCount(ps)
  {
    var nodes: seq<Node> := [];
    var edges: seq<Edge> := [];
    for i := 0 to |ps|
      invariant nodes == EmittedNodes(ps[..i])
      invariant edges == EmittedEdges(ps[..i])
    {
      EmittedPrefixStep(ps, i);
      nodes, edges := EmitPolicy(ps[i], nodes, edges);
    }
    TakeAll(ps);
    var uniqueNodes := DeduplicateById(nodes);
    graph := Graph(uniqueNodes, edges);
    DedupIdsDistinct(nodes);
    DedupKeepsEveryId(nodes);
    EdgeCountIsTotal(ps);
  }
}
