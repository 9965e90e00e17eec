/** The end-to-end scenarios the system is expected to satisfy, stated for
    every policy of the given shape. */
module Scenarios {
  import opened Models
  import opened GraphModel
  import opened GraphProperties
  import opened Evaluator

  /** A list of one policy emits exactly that policy's nodes and edges. */
  lemma SinglePolicy(p: CAPolicy)
    ensures EmittedNodes([p]) == PolicyNodes(p)
    ensures EmittedEdges([p]) == PolicyEdges(p)
  {
    assert [p][..0] == [];
  }

  lemma DistinctIds3(x: Node, y: Node, z: Node)
    requires x.id != y.id && x.id != z.id && y.id != z.id
    ensures Distinct(Ids([x, y, z]))
  {
    assert Ids([x, y, z]) == [x.id, y.id, z.id];
  }

  lemma DedupOfThree(x: Node, y: Node, z: Node)
    requires x.id != y.id && x.id != z.id && y.id != z.id
    ensures Dedup([x, y, z]) == [x, y, z]
  {
    DistinctIds3(x, y, z);
    DedupOfDistinct([x, y, z]);
  }

  /** The `users` condition of a policy that includes every user. */
  predicate IncludesAllUsers(p: CAPolicy) {
    p.conditions == Conditions(Some(map[IncludeUsersKey := [AllSentinel]]))
  }

  lemma AllUsersLists(p: CAPolicy)
    requires IncludesAllUsers(p)
    ensures UsersList(p, IncludeUsersKey) == [AllSentinel]
    ensures UsersList(p, IncludeGroupsKey) == []
    ensures UsersList(p, ExcludeUsersKey) == []
    ensures UsersList(p, ExcludeGroupsKey) == []
  {
    assert IncludeGroupsKey[7] != IncludeUsersKey[7];
    assert ExcludeUsersKey[0] != IncludeUsersKey[0];
    assert ExcludeGroupsKey[0] != IncludeUsersKey[0];
  }

  /** A policy that is not disabled and includes "All" with no exclusion
      applies to every user, whatever their groups. */
  lemma AllUsersApplies(p: CAPolicy, userId: string, groupIds: seq<string>)
    requires IncludesAllUsers(p) && p.state != "disabled"
    ensures EvaluatePolicyApplicability(p, userId, groupIds)
  {
    AllUsersLists(p);
    AllSentinelApplies(p, userId, groupIds);
  }

  /** The node for "All" and the node for "mfa". */
  function AllUsersNode(): Node { ConditionNode(ConditionNodeId(AllSentinel), AllUsersLabel) }
  function MfaNode(): Node { ControlNode(ControlNodeId("mfa"), "mfa") }

  /** The "All" entry becomes the node "cond_user_All" labelled "All Users". */
  lemma AllUsersNodeIs()
    ensures AllUsersNode() == ConditionNode("cond_user_All", "All Users")
    ensures MfaNode() == ControlNode("control_mfa", "mfa")
  {
  }

  lemma AllUsersPolicyGraph(p: CAPolicy)
    requires IncludesAllUsers(p) && p.grantControls == Some(GrantControls(["mfa"]))
    ensures PolicyNodes(p) == [PolicyNodeOf(p), AllUsersNode(), MfaNode()]
    ensures PolicyEdges(p) == [
      Edge(ConditionNodeId(AllSentinel), PolicyNodeId(p.id), Include),
      Edge(PolicyNodeId(p.id), ControlNodeId("mfa"), Grant)]
  {
    AllUsersLists(p);
    assert IncludeEntries(p) == [AllSentinel];
    assert Controls(p) == ["mfa"];
    PolicyNodesLayout(p);
    PolicyEdgesLayout(p);
  }

  /** Such a policy with the single control "mfa" is drawn as its policy
      node, the "All Users" condition node and the mfa control node, joined
      by one Include and one Grant edge. */
  lemma AllUsersScenario(p: CAPolicy)
    requires IncludesAllUsers(p) && p.grantControls == Some(GrantControls(["mfa"]))
    ensures Dedup(EmittedNodes([p])) == [PolicyNodeOf(p), AllUsersNode(), MfaNode()]
    ensures EmittedEdges([p]) == [
      Edge(ConditionNodeId(AllSentinel), PolicyNodeId(p.id), Include),
      Edge(PolicyNodeId(p.id), ControlNodeId("mfa"), Grant)]
  {
    SinglePolicy(p);
    AllUsersPolicyGraph(p);
    NodeIdsPrefixFree(p.id, AllSentinel);
    NodeIdsPrefixFree(p.id, "mfa");
    NodeIdsPrefixFree(AllSentinel, "mfa");
    DedupOfThree(PolicyNodeOf(p), AllUsersNode(), MfaNode());
  }

  /** Excluding the user beats including one of the user's groups. */
  lemma ExclusionScenario(p: CAPolicy, userId: string, groupId: string)
    requires p.conditions == Conditions(Some(map[IncludeGroupsKey := [groupId], ExcludeUsersKey := [userId]]))
    ensures !EvaluatePolicyApplicability(p, userId, [groupId])
  {
    assert IncludeGroupsKey[0] != ExcludeUsersKey[0];
    assert UsersList(p, ExcludeUsersKey) == [userId];
    ExclusionWins(p, userId, [groupId]);
  }

  /** The `users` condition of a policy that includes one group only, with
      no grant controls. */
  predicate IncludesOnlyGroup(p: CAPolicy, groupId: string) {
    p.conditions == Conditions(Some(map[IncludeGroupsKey := [groupId]])) && p.grantControls.None?
  }

  lemma OnlyGroupGraph(p: CAPolicy, groupId: string)
    requires IncludesOnlyGroup(p, groupId)
    ensures EmittedNodes([p]) == [PolicyNodeOf(p), ConditionNodeOf(groupId)]
    ensures EmittedEdges([p]) == [Edge(ConditionNodeId(groupId), PolicyNodeId(p.id), Include)]
  {
    assert IncludeUsersKey[7] != IncludeGroupsKey[7];
    assert UsersList(p, IncludeUsersKey) == [];
    assert UsersList(p, IncludeGroupsKey) == [groupId];
    assert IncludeEntries(p) == [] + [groupId];
    assert Controls(p) == [];
    SinglePolicy(p);
    PolicyNodesLayout(p);
    PolicyEdgesLayout(p);
  }

  lemma SharedGroupDedup(pa: Node, c: Node, pb: Node)
    requires pa.id != c.id && pa.id != pb.id && c.id != pb.id
    ensures Dedup([pa, c, pb] + [c]) == [pa, c, pb]
  {
    DedupOfThree(pa, c, pb);
    assert [pa, c, pb][1] == c;
    DedupOfRepeat([pa, c, pb], c);
  }

  /** Two policies that include the same group share one condition node,
      and each gets its own Include edge from it. */
  lemma SharedGroupScenario(a: CAPolicy, b: CAPolicy, groupId: string)
    requires IncludesOnlyGroup(a, groupId) && IncludesOnlyGroup(b, groupId)
    requires a.id != b.id
    ensures Dedup(EmittedNodes([a, b])) == [PolicyNodeOf(a), ConditionNodeOf(groupId), PolicyNodeOf(b)]
    ensures EmittedEdges([a, b]) == [
      Edge(ConditionNodeId(groupId), PolicyNodeId(a.id), Include),
      Edge(ConditionNodeId(groupId), PolicyNodeId(b.id), Include)]
  {
    OnlyGroupGraph(a, groupId);
    OnlyGroupGraph(b, groupId);
    assert [a, b] == [a] + [b];
    EmittedConcat([a], [b]);
    var pa, c, pb := PolicyNodeOf(a), ConditionNodeOf(groupId), PolicyNodeOf(b);
    assert EmittedNodes([a, b]) == [pa, c, pb] + [c];
    NodeIdsPrefixFree(a.id, groupId);
    NodeIdsPrefixFree(b.id, groupId);
    NodeIdsPrefixFree(a.id, b.id);
    SharedGroupDedup(pa, c, pb);
  }
}
